/** The add-wallet form: the validation schema, the record built on submit, and the
    dialog step that follows the remote create call. */
module AddWallet {
  import opened WalletTypes

  /** The two fields of the form. */
  datatype Field = NameField | InitialBalanceField

  /** One violated rule of the schema, attached to the field it concerns. */
  datatype FieldError =
    | NameRequired     // the name field was never filled in
    | NameTooShort
    | NameTooLong
    | NameNotUnique
    | BalanceNegative
  {
    function Field(): Field
    {
      if BalanceNegative? then InitialBalanceField else NameField
    }

    /** The text shown under the field. The too-long text says 25 although the
        limit applied is `MaxNameLength`, 20. */
    function Message(): string
    {
      match this
      case NameRequired => "Required"
      case NameTooShort => "Min. 2 characters"
      case NameTooLong => "Max. 25 characters"
      case NameNotUnique => "Wallet name must be unique"
      case BalanceNegative => "Must be a positive number"
    }
  }

  /** The errors of `errors` that belong to field `f`. */
  function ErrorsOn(errors: set<FieldError>, f: Field): (r: set<FieldError>)
    ensures r <= errors
    ensures forall e :: e in errors ==> (e in r <==> e.Field() == f)
  {
    set e | e in errors && e.Field() == f
  }

  /** `wallets.every((wallet) => wallet.name !== value)`, walked element by element. */
  function EveryNameDiffers(wallets: seq<Wallet>, value: string): (r: bool)
    ensures r <==> !NameTaken(value, wallets)
  {
    if |wallets| == 0 then
      true
    else
      var rest := EveryNameDiffers(wallets[1..], value);
      assert NameTaken(value, wallets[1..]) ==> NameTaken(value, wallets) by {
        if NameTaken(value, wallets[1..]) {
          var i :| 0 <= i < |wallets[1..]| && wallets[1..][i].name == value;
          assert wallets[i + 1].name == value;
        }
      }
      assert NameTaken(value, wallets) && wallets[0].name != value ==> NameTaken(value, wallets[1..]) by {
        if NameTaken(value, wallets) && wallets[0].name != value {
          var i :| 0 <= i < |wallets| && wallets[i].name == value;
          assert wallets[1..][i - 1].name == value;
        }
      }
      wallets[0].name != value && rest
  }

  /** The rules on the name: length bounds and uniqueness against the registry
      given. All violated rules are reported together. */
  function NameErrors(name: string, wallets: seq<Wallet>): (r: set<FieldError>)
    ensures NameTooShort in r <==> |name| < MinNameLength
    ensures NameTooLong in r <==> |name| > MaxNameLength
    ensures NameNotUnique in r <==> NameTaken(name, wallets)
    ensures NameRequired !in r && BalanceNegative !in r
  {
    (if |name| < MinNameLength then {NameTooShort} else {})
    + (if |name| > MaxNameLength then {NameTooLong} else {})
    + (if EveryNameDiffers(wallets, name) then {} else {NameNotUnique})
  }

  /** The rule on the optional initial balance: when present it is at least 0. */
  function BalanceErrors(initialBalance: Option<real>): (r: set<FieldError>)
    ensures BalanceNegative in r <==> initialBalance.Some? && initialBalance.value < 0.0
    ensures forall e :: e in r ==> e == BalanceNegative
  {
    match initialBalance
    case None => {}
    case Some(b) => if b < 0.0 then {BalanceNegative} else {}
  }

  /** The schema applied to a filled-in name and an optional balance, with
      uniqueness judged against the registry passed in, which is the one read
      from the application context when validation runs. */
  function Validate(name: string, initialBalance: Option<real>, wallets: seq<Wallet>): (r: set<FieldError>)
    ensures NameTooShort in r <==> |name| < MinNameLength
    ensures NameTooLong in r <==> |name| > MaxNameLength
    ensures NameNotUnique in r <==> NameTaken(name, wallets)
    ensures BalanceNegative in r <==> initialBalance.Some? && initialBalance.value < 0.0
    ensures NameRequired !in r
  {
    NameErrors(name, wallets) + BalanceErrors(initialBalance)
  }

  /** The record handed to the remote create call: the submitted name, and the
      initial balance or 0 when it was left out. */
  function MakeWallet(name: string, initialBalance: Option<real>): (w: Wallet)
    ensures w.name == name
    ensures initialBalance.None? ==> w.balance == 0.0
    ensures initialBalance.Some? ==> w.balance == initialBalance.value
  {
    Wallet(name, initialBalance.GetOr(0.0))
  }

  /** The name errors do not depend on the balance. */
  lemma NameVerdictIgnoresBalance(name: string, b1: Option<real>, b2: Option<real>, wallets: seq<Wallet>)
    ensures ErrorsOn(Validate(name, b1, wallets), NameField) == ErrorsOn(Validate(name, b2, wallets), NameField)
  {
    var e1 := ErrorsOn(Validate(name, b1, wallets), NameField);
    var e2 := ErrorsOn(Validate(name, b2, wallets), NameField);
    assert e1 == NameErrors(name, wallets);
    assert e2 == NameErrors(name, wallets);
  }

  /** The balance errors depend neither on the name nor on the registry. */
  lemma BalanceVerdictIgnoresName(n1: string, n2: string, w1: seq<Wallet>, w2: seq<Wallet>, b: Option<real>)
    ensures ErrorsOn(Validate(n1, b, w1), InitialBalanceField) == ErrorsOn(Validate(n2, b, w2), InitialBalanceField)
  {
    assert ErrorsOn(Validate(n1, b, w1), InitialBalanceField) == BalanceErrors(b);
    assert ErrorsOn(Validate(n2, b, w2), InitialBalanceField) == BalanceErrors(b);
  }

  /** The validator accepts a candidate exactly when appending the record built
      from it keeps a valid registry valid. */
  lemma {:induction false} AcceptedIffAppendKeepsRegistryValid(name: string, initialBalance: Option<real>, wallets: seq<Wallet>)
    requires ValidRegistry(wallets)
    ensures Validate(name, initialBalance, wallets) == {}
        <==> ValidRegistry(wallets + [MakeWallet(name, initialBalance)])
  {
    var w := MakeWallet(name, initialBalance);
    var next := wallets + [w];
    var errors := Validate(name, initialBalance, wallets);
    if errors == {} {
      assert WellFormed(w);
      forall i | 0 <= i < |next|
        ensures WellFormed(next[i])
      {
        if i < |wallets| { assert next[i] == wallets[i]; }
      }
      forall i, j | 0 <= i < j < |next|
        ensures next[i].name != next[j].name
      {
        if j < |wallets| {
          assert next[i] == wallets[i] && next[j] == wallets[j];
        } else {
          assert next[i] == wallets[i];
          assert !NameTaken(name, wallets);
        }
      }
    } else {
      assert !ValidRegistry(next) by {
        if NameTaken(name, wallets) {
          var i :| 0 <= i < |wallets| && wallets[i].name == name;
          assert next[i].name == next[|wallets|].name;
        } else {
          assert !WellFormed(next[|wallets|]);
        }
      }
    }
  }

  /** A candidate whose name is already held by a wallet of the registry is
      rejected on the name, whatever the rest of the candidate. */
  lemma DuplicateNameRejected(name: string, initialBalance: Option<real>, wallets: seq<Wallet>, i: nat)
    requires i < |wallets| && wallets[i].name == name
    ensures NameNotUnique in Validate(name, initialBalance, wallets)
    ensures Validate(name, initialBalance, wallets) != {}
  {
  }

  // ---------------------------------------------------------------------------
  // The form inside the dialog and the submit step.

  /** The form's field values; `None` is a field never filled in. */
  datatype Form = Form(name: Option<string>, initialBalance: Option<real>)

  /** The form after `form.reset()`: no default values, every field unset. */
  const EmptyForm: Form := Form(None, None)

  /** Whether the dialog is open, and the form it holds. */
  datatype Dialog = Dialog(open: bool, form: Form)

  datatype ToastKind = SuccessToast | ErrorToast

  /** A notification raised after a create attempt. */
  datatype Notification = Notification(kind: ToastKind, title: string, description: string)

  const CreatedToast: Notification := Notification(SuccessToast, "Success", "Wallet Created Successfully!")
  const FailedToast: Notification := Notification(ErrorToast, "Error", "Wallet Creation failed")

  /** The schema applied to the form's values. An unset name is a type error of
      its own that stops the other name rules; the balance is still checked. */
  function ValidateForm(f: Form, wallets: seq<Wallet>): (r: set<FieldError>)
    ensures NameRequired in r <==> f.name.None?
    ensures f.name.None? ==> ErrorsOn(r, NameField) == {NameRequired}
    ensures f.name.Some? ==> r == Validate(f.name.value, f.initialBalance, wallets)
    ensures BalanceNegative in r <==> f.initialBalance.Some? && f.initialBalance.value < 0.0
  {
    match f.name
    case None => {NameRequired} + BalanceErrors(f.initialBalance)
    case Some(name) => Validate(name, f.initialBalance, wallets)
  }

  /** Cancel, and the close that follows a successful create: reset the form and
      close the dialog. */
  function CloseDialog(d: Dialog): (r: Dialog)
    ensures !r.open
    ensures r.form == EmptyForm
  {
    Dialog(false, EmptyForm)
  }

  /** How the remote create call settles: it resolves to true, resolves to
      false, or its promise is rejected. */
  datatype CreateOutcome = Created | Failed | Rejected

  /** What one press of "Create Wallet" produces. */
  datatype SubmitStep = SubmitStep(
    dialog: Dialog,                  // the dialog afterwards
    errors: set<FieldError>,         // the schema's issues
    request: Option<Wallet>,         // the record sent to the remote create call, if any
    toast: Option<Notification>,     // the notification raised, if any
    threw: bool)                     // the submit handler ended with an exception

  /** One submission of the form against the registry `wallets`. When the schema
      rejects the form nothing is sent and nothing changes. Otherwise the handler
      reads the signed-in user's id: with nobody signed in it throws before the
      create call. With a user, the record is sent; a call that settles with an
      answer is followed by exactly one notification, and only success resets
      and closes; a rejected call throws, with no notification. */
  function Submit(d: Dialog, wallets: seq<Wallet>, signedIn: bool, outcome: CreateOutcome): (r: SubmitStep)
    ensures r.errors == ValidateForm(d.form, wallets)
    ensures r.request.Some? <==> r.errors == {} && signedIn
    ensures r.request.Some? ==>
              d.form.name.Some? && r.request.value == MakeWallet(d.form.name.value, d.form.initialBalance)
    ensures r.threw <==> r.errors == {} && (!signedIn || outcome == Rejected)
    ensures r.toast.Some? <==> r.request.Some? && !r.threw
    ensures r.toast == Some(CreatedToast) <==> r.request.Some? && outcome == Created
    ensures r.toast == Some(FailedToast) <==> r.request.Some? && outcome == Failed
    ensures r.toast == Some(CreatedToast) ==> r.dialog == CloseDialog(d)
    ensures r.toast != Some(CreatedToast) ==> r.dialog == d
  {
    var errors := ValidateForm(d.form, wallets);
    if errors != {} then
      SubmitStep(d, errors, None, None, false)
    else if !signedIn then
      SubmitStep(d, errors, None, None, true)
    else
      var w := Some(MakeWallet(d.form.name.value, d.form.initialBalance));
      match outcome
      case Created => SubmitStep(CloseDialog(d), errors, w, Some(CreatedToast), false)
      case Failed => SubmitStep(d, errors, w, Some(FailedToast), false)
      case Rejected => SubmitStep(d, errors, w, None, true)
  }

  /** A record the validator let through always satisfies the field rules, so
      the wallet sent for creation is well formed. */
  lemma SentRecordWellFormed(d: Dialog, wallets: seq<Wallet>, signedIn: bool, outcome: CreateOutcome)
    requires Submit(d, wallets, signedIn, outcome).request.Some?
    ensures WellFormed(Submit(d, wallets, signedIn, outcome).request.value)
    ensures !NameTaken(Submit(d, wallets, signedIn, outcome).request.value.name, wallets)
  {
  }

  /** A create that did not succeed leaves the form as it was, so pressing the
      button again against the same registry sends the very same record. */
  lemma RetryAfterFailureSendsSameRecord(d: Dialog, wallets: seq<Wallet>, outcome: CreateOutcome, again: CreateOutcome)
    requires outcome != Created
    requires Submit(d, wallets, true, outcome).request.Some?
    ensures Submit(Submit(d, wallets, true, outcome).dialog, wallets, true, again).request
         == Submit(d, wallets, true, outcome).request
  {
  }

  /** Submitting the same form again once its record is in the registry is
      rejected at validation on the name, so nothing is sent a second time. This
      holds for every later registry that holds the record, whatever the remote
      side did to put it there. */
  lemma ResubmitAfterCommitRejected(d: Dialog, before: seq<Wallet>, after: seq<Wallet>, signedIn: bool, outcome: CreateOutcome)
    requires Submit(d, before, true, Created).request.Some?
    requires Submit(d, before, true, Created).request.value in after
    ensures NameNotUnique in Submit(d, after, signedIn, outcome).errors
    ensures Submit(d, after, signedIn, outcome).request.None?
    ensures Submit(d, after, signedIn, outcome).toast.None?
  {
    var w := Submit(d, before, true, Created).request.value;
    var i :| 0 <= i < |after| && after[i] == w;
    assert after[i].name == d.form.name.value;
  }

  /** After a reset the name is unset, so submitting straight away is refused. */
  lemma SubmitAfterResetRefused(d: Dialog, wallets: seq<Wallet>, signedIn: bool, outcome: CreateOutcome)
    ensures Submit(CloseDialog(d), wallets, signedIn, outcome).errors == {NameRequired}
    ensures Submit(CloseDialog(d), wallets, signedIn, outcome).toast.None?
  {
    assert ValidateForm(EmptyForm, wallets) == {NameRequired};
  }

  /** A name one character over the limit is refused as too long, with a message
      that names 25 as the limit. */
  lemma TooLongMessageSaysTwentyFive(wallets: seq<Wallet>)
    ensures NameTooLong in Validate("abcdefghijklmnopqrstu", None, wallets)
    ensures NameTooLong.Message() == "Max. 25 characters"
  {
    assert |"abcdefghijklmnopqrstu"| == MaxNameLength + 1;
  }

  // ---------------------------------------------------------------------------
  // Worked cases.

  /** "Cash" is already in the registry: the candidate is refused on the name
      and nothing is sent. */
  lemma DuplicateCashRefused()
    ensures Submit(Dialog(true, Form(Some("Cash"), Some(50.0))), [Wallet("Cash", 100.0)], true, Created)
         == SubmitStep(Dialog(true, Form(Some("Cash"), Some(50.0))), {NameNotUnique}, None, None, false)
  {
    var wallets := [Wallet("Cash", 100.0)];
    assert wallets[0].name == "Cash";
    assert Validate("Cash", Some(50.0), wallets) == {NameNotUnique};
  }

  /** "Savings" with no balance into an empty registry: sent with balance 0,
      and on success the dialog closes with a success notification. */
  lemma SavingsCreatedWithZeroBalance()
    ensures Submit(Dialog(true, Form(Some("Savings"), None)), [], true, Created)
         == SubmitStep(Dialog(false, EmptyForm), {}, Some(Wallet("Savings", 0.0)), Some(CreatedToast), false)
  {
    assert Validate("Savings", None, []) == {};
  }

  /** "Ab" with balance -5: only the balance is refused; the name passes. */
  lemma NegativeBalanceOnlyError()
    ensures Validate("Ab", Some(-5.0), [Wallet("A", 0.0)]) == {BalanceNegative}
  {
    var wallets := [Wallet("A", 0.0)];
    assert !NameTaken("Ab", wallets) by {
      assert wallets[0].name != "Ab";
    }
  }
}
