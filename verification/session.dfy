/** A session on the transfer page: a sequence of user actions and service
    replies, each handled to completion before the next, and the properties
    that hold over such sequences. */
module Session {
  import opened JsString
  import opened Page
  import opened Handlers

  /** One thing that happens to the page. `BeneficiariesArrived` is the
      reply to the list request made on mount, which may arrive at any
      point of the session. */
  datatype Event =
    | Typed(field: Field, text: string)
    | SendOtpClicked(otpReply: OtpReply)
    | TransferClicked(transferReply: TransferReply)
    | AddClicked(addReply: AddReply)
    | BeneficiariesArrived(listReply: ListReply)

  function Dispatch(s: PageState, e: Event): Step {
    match e
    case Typed(f, text) => Local(Edit(s, f, text))
    case SendOtpClicked(reply) => SendOtp(s, reply)
    case TransferClicked(reply) => TransferFunds(s, reply)
    case AddClicked(reply) => AddBeneficiary(s, reply)
    case BeneficiariesArrived(reply) => LoadBeneficiaries(s, reply)
  }

  /** The state after handling `evs` in order, starting from `s`. */
  function Run(s: PageState, evs: seq<Event>): PageState
    decreases |evs|
  {
    if evs == [] then s else Run(Dispatch(s, evs[0]).after, evs[1..])
  }

  predicate IssuesOtp(e: Event) {
    e.SendOtpClicked? && e.otpReply.OtpIssued?
  }

  /** The most recent OTP the service issued during `evs`, or `held` if it
      issued none. Defined from the events alone, without the handlers. */
  function LastIssued(evs: seq<Event>, held: string): string
    decreases |evs|
  {
    if evs == [] then held
    else LastIssued(evs[1..], if IssuesOtp(evs[0]) then evs[0].otpReply.otp else held)
  }

  /** No handler but a successful `sendOtp` writes the held OTP. */
  lemma DispatchHeldOtp(s: PageState, e: Event)
    ensures Dispatch(s, e).after.serverOtp ==
            if IssuesOtp(e) then e.otpReply.otp else s.serverOtp
  {
  }

  /** The page always holds the last OTP the service issued (or the one it
      started with): a failed request, a transfer of any outcome, and every
      other action leave it alone. */
  lemma {:induction false} HeldOtpIsLastIssued(s: PageState, evs: seq<Event>)
    ensures Run(s, evs).serverOtp == LastIssued(evs, s.serverOtp)
    decreases |evs|
  {
    if evs != [] {
      DispatchHeldOtp(s, evs[0]);
      HeldOtpIsLastIssued(Dispatch(s, evs[0]).after, evs[1..]);
    }
  }

  lemma {:induction false} LastIssuedKeepsHeld(evs: seq<Event>, held: string)
    requires forall i :: 0 <= i < |evs| ==> !IssuesOtp(evs[i])
    ensures LastIssued(evs, held) == held
    decreases |evs|
  {
    if evs != [] {
      assert !IssuesOtp(evs[0]);
      assert forall i :: 0 <= i < |evs[1..]| ==> !IssuesOtp(evs[1..][i]) by {
        forall i | 0 <= i < |evs[1..]|
          ensures !IssuesOtp(evs[1..][i])
        {
          assert evs[1..][i] == evs[i + 1];
        }
      }
      LastIssuedKeepsHeld(evs[1..], held);
    }
  }

  /** A session in which the service issues no OTP leaves the held OTP as
      it was: a failed OTP request, transfers, adds, list loads and typing
      never write it. */
  lemma {:induction false} NothingIssuedNothingChanges(s: PageState, evs: seq<Event>)
    requires forall i :: 0 <= i < |evs| ==> !IssuesOtp(evs[i])
    ensures Run(s, evs).serverOtp == s.serverOtp
  {
    HeldOtpIsLastIssued(s, evs);
    LastIssuedKeepsHeld(evs, s.serverOtp);
  }

  /** Whatever happened before, a transfer request is sent only with all
      three inputs filled and an entered OTP that trims to the same text as
      the last OTP the service issued, and it carries exactly those inputs. */
  lemma SubmittedOtpMatchesLastIssued(s: PageState, evs: seq<Event>, reply: TransferReply)
    ensures
      var t := Run(s, evs);
      var step := TransferFunds(t, reply);
      step.Remote? ==>
        && step.request == TransferSubmit(t.account, t.amount, t.otp)
        && t.account != "" && t.amount != "" && t.otp != ""
        && SameTrimmed(t.otp, LastIssued(evs, s.serverOtp))
  {
    HeldOtpIsLastIssued(s, evs);
  }

  /** From a fresh page, in any session in which the service never issued
      an OTP, a transfer whose OTP input is non-empty white space is still
      submitted: the held OTP is the initial '' and both sides trim to ''. */
  lemma BlankOtpPassesWithNoneIssued(evs: seq<Event>, reply: TransferReply)
    requires forall i :: 0 <= i < |evs| ==> !IssuesOtp(evs[i])
    requires FieldsFilled(Run(Init(), evs)) && AllWhitespace(Run(Init(), evs).otp)
    ensures Run(Init(), evs).serverOtp == ""
    ensures TransferFunds(Run(Init(), evs), reply).Remote?
  {
    var t := Run(Init(), evs);
    NothingIssuedNothingChanges(Init(), evs);
    TrimEmptyIffBlank(t.otp);
    TrimEmptyIffBlank(t.serverOtp);
  }

  /** The payee the concrete scenarios use, as the service stores it. */
  const Alex := Beneficiary(9, "Alex", "1234567890")

  /** A fresh page once the mount-time list request has returned `[Alex]`.
      The account select only offers `""` and listed accounts, so a
      scenario that selects "1234567890" starts here. */
  function Listed(): PageState {
    LoadBeneficiaries(Init(), ListReceived([Alex])).after
  }

  /** A concrete instance: once the list has loaded, select Alex's account,
      type an amount, type a single space as the OTP, and press Transfer.
      The transfer request goes out although no OTP was ever requested. */
  lemma BlankOtpExample(reply: TransferReply)
    ensures
      var s := Edit(Edit(Edit(Listed(), AccountInput, "1234567890"), AmountInput, "500"), OtpInput, " ");
      && s.beneficiaries == [Alex] && s.account == Alex.account
      && s.serverOtp == ""
      && TransferFunds(s, reply).Remote?
      && TransferFunds(s, reply).request == TransferSubmit("1234567890", "500", " ")
  {
    var s := Edit(Edit(Edit(Listed(), AccountInput, "1234567890"), AmountInput, "500"), OtpInput, " ");
    assert AllWhitespace(s.otp);
    TrimEmptyIffBlank(s.otp);
    TrimEmptyIffBlank(s.serverOtp);
  }

  /** A successful transfer does not retire the OTP: entering the same
      account, amount and OTP again passes the check a second time. */
  lemma OtpReusableAfterTransfer(s: PageState, message: string, again: TransferReply)
    requires TransferFunds(s, TransferAnswered(message)).Remote?
    ensures
      var t := TransferFunds(s, TransferAnswered(message)).after;
      var retyped := Edit(Edit(Edit(t, AccountInput, s.account), AmountInput, s.amount), OtpInput, s.otp);
      && t.serverOtp == s.serverOtp
      && t.otp == ""
      && TransferFunds(retyped, again).Remote?
      && TransferFunds(retyped, again).request == TransferSubmit(s.account, s.amount, s.otp)
  {
  }

  /** Issuing a new OTP retires the old one: an entry that matched the old
      OTP but not the new one is refused without a request. */
  lemma NewOtpRetiresOld(s: PageState, issued: string, entered: string, reply: TransferReply)
    requires SameTrimmed(entered, s.serverOtp) && !SameTrimmed(s.serverOtp, issued)
    ensures
      var t := Edit(SendOtp(s, OtpIssued(issued)).after, OtpInput, entered);
      !TransferFunds(t, reply).Remote?
  {
  }

  /** A failed OTP request leaves the held OTP, so every entry is judged
      exactly as before it. */
  lemma FailedSendKeepsChallenge(s: PageState, reply: TransferReply)
    ensures
      var t := SendOtp(s, OtpUnreachable).after;
      && t.serverOtp == s.serverOtp
      && (TransferFunds(t, reply).Remote? <==> TransferFunds(s, reply).Remote?)
  {
  }

  /** The empty-field check runs first: with an input empty, the message
      is about the empty field whether or not the OTP matches. */
  lemma EmptyFieldCheckWins(s: PageState, reply: TransferReply)
    requires s.account == "" || s.amount == "" || s.otp == ""
    requires !SameTrimmed(s.otp, s.serverOtp)
    ensures TransferFunds(s, reply).after.message == FillAllFieldsMessage
  {
  }

  predicate ReloadsList(e: Event) {
    e.BeneficiariesArrived? && e.listReply.ListReceived?
  }

  /** Without a list reload, the beneficiary list only grows at its end, and
      every entry it gains is a beneficiary object the service returned on a
      successful add (so it carries the service-assigned id). */
  lemma {:induction false} ListGrowsOnlyByServerEntries(s: PageState, evs: seq<Event>)
    requires forall i :: 0 <= i < |evs| ==> !ReloadsList(evs[i])
    ensures |s.beneficiaries| <= |Run(s, evs).beneficiaries|
    ensures Run(s, evs).beneficiaries[..|s.beneficiaries|] == s.beneficiaries
    ensures forall k :: |s.beneficiaries| <= k < |Run(s, evs).beneficiaries| ==>
              AddClicked(AddAccepted(Run(s, evs).beneficiaries[k])) in evs
    decreases |evs|
  {
    if evs != [] {
      var t := Dispatch(s, evs[0]).after;
      var rest := evs[1..];
      assert !ReloadsList(evs[0]);
      assert forall i :: 0 <= i < |rest| ==> !ReloadsList(rest[i]) by {
        forall i | 0 <= i < |rest|
          ensures !ReloadsList(rest[i])
        {
          assert rest[i] == evs[i + 1];
        }
      }
      assert t.beneficiaries == s.beneficiaries
          || (evs[0].AddClicked? && evs[0].addReply.AddAccepted?
              && t.beneficiaries == s.beneficiaries + [evs[0].addReply.beneficiary]);
      ListGrowsOnlyByServerEntries(t, rest);
      var u := Run(s, evs);
      assert u == Run(t, rest);
      forall k | |s.beneficiaries| <= k < |u.beneficiaries|
        ensures AddClicked(AddAccepted(u.beneficiaries[k])) in evs
      {
        if k < |t.beneficiaries| {
          assert u.beneficiaries[k] == t.beneficiaries[k];
          assert t.beneficiaries[k] == evs[0].addReply.beneficiary;
          assert evs[0] == AddClicked(AddAccepted(u.beneficiaries[k]));
        } else {
          assert AddClicked(AddAccepted(u.beneficiaries[k])) in rest;
        }
      }
    }
  }

  /** Loading the same list twice gives the same page as loading it once. */
  lemma LoadIdempotent(s: PageState, list: seq<Beneficiary>)
    ensures
      var once := LoadBeneficiaries(s, ListReceived(list)).after;
      LoadBeneficiaries(once, ListReceived(list)).after == once
  {
  }

  /** The list reply replaces the list wholesale: an entry appended by an
      earlier successful add is gone unless the service's list has it. */
  lemma LateListDropsAppended(s: PageState, b: Beneficiary, list: seq<Beneficiary>)
    requires s.newName != "" && s.newAccount != ""
    ensures
      var added := AddBeneficiary(s, AddAccepted(b)).after;
      LoadBeneficiaries(added, ListReceived(list)).after.beneficiaries == list
  {
  }

  /** The scenario: with the list loaded, the user selects Alex's account,
      the service issues "482913", the user enters it, and the transfer is
      answered without a message. The request is sent, the
      default confirmation is shown and the three inputs are cleared. */
  lemma MatchingOtpScenario()
    ensures
      var s0 := Edit(Edit(Listed(), AccountInput, "1234567890"), AmountInput, "500");
      var s1 := SendOtp(s0, OtpIssued("482913")).after;
      var s2 := Edit(s1, OtpInput, "482913");
      var step := TransferFunds(s2, TransferAnswered(""));
      && step.Remote?
      && step.request == TransferSubmit("1234567890", "500", "482913")
      && step.after.message == "Transfer completed"
      && step.after.account == "" && step.after.amount == "" && step.after.otp == ""
  {
  }

  /** The scenario: with the list loaded, the user selects Alex's account,
      the service issues "482913", and the user enters "482914";
      the transfer is refused locally with "Invalid OTP". */
  lemma MismatchedOtpScenario(reply: TransferReply)
    ensures
      var s0 := Edit(Edit(Listed(), AccountInput, "1234567890"), AmountInput, "500");
      var s1 := SendOtp(s0, OtpIssued("482913")).after;
      var s2 := Edit(s1, OtpInput, "482914");
      var step := TransferFunds(s2, reply);
      && !step.Remote?
      && step.after == s2.(message := "Invalid OTP")
  {
    assert Trim("482913") == "482913";
    assert Trim("482914") == "482914";
  }

  /** The scenario: adding "Alex" with account "1234567890", which the
      service stores with id 9. The list gains exactly that entry and the
      inputs are cleared. */
  lemma AddBeneficiaryScenario()
    ensures
      var s0 := Edit(Edit(Init(), NameInput, "Alex"), NewAccountInput, "1234567890");
      var step := AddBeneficiary(s0, AddAccepted(Alex));
      && step.request == BeneficiaryCreate("Alex", "1234567890")
      && step.after.beneficiaries == [Alex]
      && step.after.newName == "" && step.after.newAccount == ""
  {
  }
}
