/**
 * The invite list of the create-research page: an input box and a list of
 * addresses, with add and remove but no trimming or validation.
 */
module EmailList {
  import opened Seqs
  import TagStore

  /** The `emails` and `emailInput` state of the page. */
  datatype Form = Form(emails: seq<string>, input: string)

  /** The page's initial state. */
  const Empty: Form := Form([], "")

  /** The input box's `onChange`. */
  function SetInput(f: Form, text: string): (g: Form)
    ensures g.emails == f.emails && g.input == text
  {
    f.(input := text)
  }

  /**
   * `handleAddEmail`: a non-empty input that is not yet listed goes to the
   * end of the list and the input is cleared; otherwise nothing changes.
   */
  function AddEmail(f: Form): (g: Form)
    ensures f.emails <= g.emails && |g.emails| <= |f.emails| + 1
    ensures forall e :: e in g.emails <==> e in f.emails || (e == f.input && e != "")
    ensures g.emails == f.emails ==> g == f
    ensures g.emails != f.emails ==> g.input == ""
    ensures f.input == "" || f.input in f.emails ==> g == f
  {
    if f.input != "" && f.input !in f.emails then Form(f.emails + [f.input], "") else f
  }

  /** `handleRemoveEmail`: every entry equal to `email` is dropped, the others keep their order. */
  function RemoveEmail(f: Form, email: string): (g: Form)
    ensures email !in g.emails
    ensures forall e :: e in f.emails && e != email ==> e in g.emails
    ensures IsSubsequence(g.emails, f.emails)
    ensures g.input == f.input
  {
    f.(emails := TagStore.Remove(f.emails, email))
  }

  /** What the user can do on the page. */
  datatype Action = Typed(text: string) | AddClicked | RemoveClicked(email: string)

  function Apply(f: Form, a: Action): Form {
    match a
    case Typed(text) => SetInput(f, text)
    case AddClicked => AddEmail(f)
    case RemoveClicked(email) => RemoveEmail(f, email)
  }

  /** A sequence of actions from a given state. */
  function Run(f: Form, actions: seq<Action>): Form
    decreases |actions|
  {
    if actions == [] then f else Run(Apply(f, actions[0]), actions[1..])
  }

  /** Adding keeps the list duplicate-free. */
  lemma AddKeepsNoDup(f: Form)
    requires NoDup(f.emails)
    ensures NoDup(AddEmail(f).emails)
  {
  }

  /** One action keeps the list duplicate-free. */
  lemma ApplyKeepsNoDup(f: Form, a: Action)
    requires NoDup(f.emails)
    ensures NoDup(Apply(f, a).emails)
  {
    match a
    case Typed(_) =>
    case AddClicked => AddKeepsNoDup(f);
    case RemoveClicked(email) => TagStore.RemoveNoDup(f.emails, email);
  }

  /** Whatever the user does, the list stays duplicate-free. */
  lemma {:induction false} RunKeepsNoDup(f: Form, actions: seq<Action>)
    requires NoDup(f.emails)
    ensures NoDup(Run(f, actions).emails)
    decreases |actions|
  {
    if actions != [] {
      ApplyKeepsNoDup(f, actions[0]);
      RunKeepsNoDup(Apply(f, actions[0]), actions[1..]);
    }
  }

  /** Removing the entry at position `k` deletes exactly that position. */
  lemma RemoveAt(f: Form, k: nat)
    requires NoDup(f.emails) && k < |f.emails|
    ensures RemoveEmail(f, f.emails[k]).emails == f.emails[..k] + f.emails[k + 1..]
  {
    TagStore.RemoveAt(f.emails, k);
  }

  /** Without trimming, an address and the same address with a trailing space are both listed. */
  lemma NoTrimming(address: string)
    requires address != ""
    ensures var f := AddEmail(SetInput(AddEmail(SetInput(Empty, address)), address + " "));
      f.emails == [address, address + " "]
  {
    var f1 := AddEmail(SetInput(Empty, address));
    assert f1.emails == [address];
    assert address + " " != address by {
      assert |address + " "| != |address|;
    }
  }
}
