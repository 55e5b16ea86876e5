/** The transfer page's event handlers as pure transitions. Each takes the
    current state and the reply the banking service would give (only looked
    at when a request is actually sent) and returns the resulting `Step`.

    A reply is whatever `res.json()` produced: the page never inspects the
    HTTP status, so an error status with a JSON body counts as an answer.
    A transport error stands for every exception the `try` block catches:
    an unreachable service, a body that is not JSON, or a JSON `null` body,
    which throws when the handler reads a field of it. */
module Handlers {
  import opened JsString
  import opened Page

  const OtpSentMessage := "OTP sent successfully!"
  const OtpFailedMessage := "Failed to send OTP"
  const FillAllFieldsMessage := "Please fill all fields"
  const InvalidOtpMessage := "Invalid OTP"
  const TransferDoneMessage := "Transfer completed"
  const TransferFailedMessage := "Transfer failed"
  const EnterNameMessage := "Please enter name and account number"
  const AddedMessage := "Beneficiary added successfully!"
  const AddRefusedMessage := "Failed to add beneficiary"
  const AddFailedMessage := "Add beneficiary failed"

  /** Reply to `POST /api/otp/send`: the `otp` field, already coerced with
      `String(...)`, so an opaque string. */
  datatype OtpReply = OtpIssued(otp: string) | OtpUnreachable

  /** Reply to `POST /api/transfer`: its `message` field ("" when absent). */
  datatype TransferReply = TransferAnswered(message: string) | TransferUnreachable

  /** Reply to `POST /api/beneficiaries`: `success` with the stored
      beneficiary, a refusal with its `message` ("" when absent), or an
      exception. */
  datatype AddReply =
    | AddAccepted(beneficiary: Beneficiary)
    | AddRefused(message: string)
    | AddUnreachable

  /** Reply to `GET /api/beneficiaries`: a list of beneficiaries, or a
      transport error. */
  datatype ListReply = ListReceived(list: seq<Beneficiary>) | ListUnreachable

  /** The account, amount and OTP inputs are all non-empty (a JavaScript
      string is falsy exactly when it is empty). */
  predicate FieldsFilled(s: PageState) {
    s.account != "" && s.amount != "" && s.otp != ""
  }

  /** The entered OTP equals the held one after trimming both. Nothing here
      asks whether an OTP was ever issued. */
  predicate OtpAccepted(s: PageState) {
    SameTrimmed(s.otp, s.serverOtp)
  }

  /** Outcome of the two local checks `transferFunds` makes before sending. */
  datatype Verdict = MissingField | OtpMismatch | Cleared

  function Gate(s: PageState): Verdict {
    if !FieldsFilled(s) then MissingField
    else if !OtpAccepted(s) then OtpMismatch
    else Cleared
  }

  /** `sendOtp`: always contacts the service, shows `loading` while waiting;
      an issued OTP replaces the held one, a failure keeps it. */
  function SendOtp(s: PageState, reply: OtpReply): (r: Step)
    ensures r.Remote? && r.request == OtpSend
    ensures r.during == s.(loading := true)
    ensures !r.after.loading
    ensures reply.OtpIssued? ==>
      r.after == s.(serverOtp := reply.otp, message := OtpSentMessage, loading := false)
    ensures reply.OtpUnreachable? ==>
      r.after == s.(message := OtpFailedMessage, loading := false)
  {
    var during := Apply(s, SetLoading(true));
    var settled := match reply
      case OtpIssued(v) =>
        var s1 := Apply(during, SetServerOtp(v));
        Apply(s1, SetMessage(OtpSentMessage))
      case OtpUnreachable =>
        Apply(during, SetMessage(OtpFailedMessage));
    Remote(OtpSend, during, Apply(settled, SetLoading(false)))
  }

  /** `transferFunds`: the empty-field check, then the trimmed OTP
      comparison, then the request. A rejection only sets the message; an
      answered request clears the three inputs and shows the service's
      message (or a default); a transport error keeps the inputs. The held
      OTP survives every outcome. */
  function TransferFunds(s: PageState, reply: TransferReply): (r: Step)
    ensures r.Remote? <==> FieldsFilled(s) && OtpAccepted(s)
    ensures !FieldsFilled(s) ==> r == Local(s.(message := FillAllFieldsMessage))
    ensures FieldsFilled(s) && !OtpAccepted(s) ==> r == Local(s.(message := InvalidOtpMessage))
    ensures r.Remote? ==>
      && r.request == TransferSubmit(s.account, s.amount, s.otp)
      && r.during == s.(loading := true)
      && !r.after.loading
    ensures r.Remote? && reply.TransferAnswered? ==>
      r.after == s.(account := "", amount := "", otp := "",
                    message := if reply.message != "" then reply.message else TransferDoneMessage,
                    loading := false)
    ensures r.Remote? && reply.TransferUnreachable? ==>
      r.after == s.(message := TransferFailedMessage, loading := false)
    ensures r.after.serverOtp == s.serverOtp
  {
    match Gate(s)
    case MissingField => Local(Apply(s, SetMessage(FillAllFieldsMessage)))
    case OtpMismatch => Local(Apply(s, SetMessage(InvalidOtpMessage)))
    case Cleared =>
      var during := Apply(s, SetLoading(true));
      var settled := match reply
        case TransferAnswered(m) =>
          var s1 := Apply(during, SetMessage(OrElse(m, TransferDoneMessage)));
          var s2 := Apply(s1, SetAccount(""));
          var s3 := Apply(s2, SetAmount(""));
          Apply(s3, SetOtp(""))
        case TransferUnreachable =>
          Apply(during, SetMessage(TransferFailedMessage));
      Remote(TransferSubmit(s.account, s.amount, s.otp), during, Apply(settled, SetLoading(false)))
  }

  /** `addBeneficiary`: rejects an empty name or account locally; otherwise
      asks the service, appends exactly the beneficiary it returns and clears
      the inputs on success, and on any failure only sets the message. It
      never touches `loading`. */
  function AddBeneficiary(s: PageState, reply: AddReply): (r: Step)
    ensures r.Remote? <==> s.newName != "" && s.newAccount != ""
    ensures !r.Remote? ==> r.after == s.(message := EnterNameMessage)
    ensures r.Remote? ==>
      r.request == BeneficiaryCreate(s.newName, s.newAccount) && r.during == s
    ensures r.Remote? && reply.AddAccepted? ==>
      r.after == s.(beneficiaries := s.beneficiaries + [reply.beneficiary],
                    newName := "", newAccount := "", message := AddedMessage)
    ensures r.Remote? && reply.AddRefused? ==>
      r.after == s.(message := if reply.message != "" then reply.message else AddRefusedMessage)
    ensures r.Remote? && reply.AddUnreachable? ==>
      r.after == s.(message := AddFailedMessage)
  {
    if s.newName == "" || s.newAccount == "" then
      Local(Apply(s, SetMessage(EnterNameMessage)))
    else
      var settled := match reply
        case AddAccepted(b) =>
          var s1 := Apply(s, AppendBeneficiary(b));
          var s2 := Apply(s1, SetNewName(""));
          var s3 := Apply(s2, SetNewAccount(""));
          Apply(s3, SetMessage(AddedMessage))
        case AddRefused(m) =>
          Apply(s, SetMessage(OrElse(m, AddRefusedMessage)))
        case AddUnreachable =>
          Apply(s, SetMessage(AddFailedMessage));
      Remote(BeneficiaryCreate(s.newName, s.newAccount), s, settled)
  }

  /** The mount effect that loads the beneficiary list: a received list
      replaces the local one wholesale, a transport error is only logged.
      The `Remote` step stands for the one request sent on mount; a session
      in which the reply arrives more than once over-approximates that
      single request. */
  function LoadBeneficiaries(s: PageState, reply: ListReply): (r: Step)
    ensures r.Remote? && r.request == BeneficiaryList && r.during == s
    ensures reply.ListReceived? ==> r.after == s.(beneficiaries := reply.list)
    ensures reply.ListUnreachable? ==> r.after == s
  {
    var settled := match reply
      case ListReceived(l) => Apply(s, SetBeneficiaries(l))
      case ListUnreachable => s;
    Remote(BeneficiaryList, s, settled)
  }

  /** The inputs the user edits through `onChange`. */
  datatype Field = AccountInput | AmountInput | OtpInput | NameInput | NewAccountInput

  /** An `onChange` handler: stores the typed (or selected) text in its own
      cell and nowhere else. */
  function Edit(s: PageState, f: Field, text: string): (r: PageState)
    ensures f == AccountInput ==> r == s.(account := text)
    ensures f == AmountInput ==> r == s.(amount := text)
    ensures f == OtpInput ==> r == s.(otp := text)
    ensures f == NameInput ==> r == s.(newName := text)
    ensures f == NewAccountInput ==> r == s.(newAccount := text)
  {
    var u := match f
      case AccountInput => SetAccount(text)
      case AmountInput => SetAmount(text)
      case OtpInput => SetOtp(text)
      case NameInput => SetNewName(text)
      case NewAccountInput => SetNewAccount(text);
    Apply(s, u)
  }
}
