/** The transfer page's component state, the setter calls its handlers make,
    and the requests it can send to the banking service.

    React state setters are queued and applied in call order when the
    component re-renders; a handler's effect on the state is therefore the
    application, one after another, of the setters it calls. */
module Page {

  /** A payee as the service returns it; `id` is assigned by the service. */
  datatype Beneficiary = Beneficiary(id: int, name: string, account: string)

  /** One value of every `useState` cell the workflow uses. */
  datatype PageState = PageState(
    account: string,
    amount: string,
    otp: string,
    serverOtp: string,
    message: string,
    loading: bool,
    beneficiaries: seq<Beneficiary>,
    newName: string,
    newAccount: string)

  /** The state on first render: every text cell empty, nothing loading,
      no beneficiaries and, in particular, no one-time password held. */
  function Init(): PageState {
    PageState("", "", "", "", "", false, [], "", "")
  }

  /** One call of a state setter. `AppendBeneficiary` is the functional
      update `prev => [...prev, b]`; every other setter stores a value. */
  datatype Setter =
    | SetAccount(text: string)
    | SetAmount(text: string)
    | SetOtp(text: string)
    | SetServerOtp(text: string)
    | SetMessage(text: string)
    | SetLoading(flag: bool)
    | SetBeneficiaries(list: seq<Beneficiary>)
    | AppendBeneficiary(added: Beneficiary)
    | SetNewName(text: string)
    | SetNewAccount(text: string)

  function Apply(s: PageState, u: Setter): PageState {
    match u
    case SetAccount(v) => s.(account := v)
    case SetAmount(v) => s.(amount := v)
    case SetOtp(v) => s.(otp := v)
    case SetServerOtp(v) => s.(serverOtp := v)
    case SetMessage(v) => s.(message := v)
    case SetLoading(b) => s.(loading := b)
    case SetBeneficiaries(l) => s.(beneficiaries := l)
    case AppendBeneficiary(b) => s.(beneficiaries := s.beneficiaries + [b])
    case SetNewName(v) => s.(newName := v)
    case SetNewAccount(v) => s.(newAccount := v)
  }

  /** A request the page sends to the banking service, with its body. */
  datatype Request =
    | OtpSend
    | TransferSubmit(account: string, amount: string, otp: string)
    | BeneficiaryCreate(name: string, account: string)
    | BeneficiaryList

  /** What a handler does: either it settles without contacting the service,
      or it sends `request`, renders `during` while the reply is awaited, and
      ends in `after` once the reply (or the transport error) is handled.
      A request was issued exactly when the step is `Remote?`. */
  datatype Step =
    | Local(after: PageState)
    | Remote(request: Request, during: PageState, after: PageState)

  /** JavaScript's `m || fallback` for a string `m` that may be missing;
      a missing value is represented by the empty string, which is falsy. */
  function OrElse(m: string, fallback: string): string {
    if m != "" then m else fallback
  }
}
