/**
 * The tag-input widget: a duplicate-free tag list owned by the parent form,
 * the text still being typed, the current error and the rendering window.
 * Handlers and effects are transitions of one immutable state record.
 */
module TagInput {
  import opened Common
  import opened Seqs
  import JsString
  import TagStore
  import VisibleWindow

  /** The widget's state; `tags` is the `value` array the parent owns. */
  datatype State = State(tags: seq<string>, pending: string, error: Option<string>, visible: nat)

  /**
   * The injected per-item check (the email schema): `None` when the item
   * passes, `Some(message)` when it fails.
   */
  type Rule = string -> Option<string>

  /** Keys the input distinguishes. */
  datatype Key = Enter | Comma | Backspace | OtherKey

  /** The separator between items of a batch. */
  const Separator: char := ','

  /** The state right after mounting over the parent's list. */
  function Mount(tags: seq<string>): (s: State)
    ensures s.tags == tags && s.pending == "" && s.error == None
    ensures s.visible == 200
  {
    State(tags, "", None, VisibleWindow.InitialCount)
  }

  /**
   * `input.split(",").map((item) => item.trim())`: one candidate per
   * separator-delimited piece, empty pieces included.
   */
  function Items(input: string): (items: seq<string>)
    ensures |items| == JsString.Occurrences(input, Separator) + 1
    ensures forall i :: 0 <= i < |items| ==> Separator !in items[i]
    ensures forall i :: 0 <= i < |items| && items[i] != [] ==>
      !JsString.IsJsWhiteSpace(items[i][0]) && !JsString.IsJsWhiteSpace(items[i][|items[i]| - 1])
  {
    var parts := JsString.Split(input, Separator);
    seq(|parts|, i requires 0 <= i < |parts| => JsString.Trim(parts[i]))
  }

  /** The position of the first item the rule rejects, or `|items|` if none is rejected. */
  function FirstFailing(rule: Rule, items: seq<string>): (k: nat)
    ensures k <= |items|
    ensures forall j :: 0 <= j < k ==> rule(items[j]).None?
    ensures k < |items| ==> rule(items[k]).Some?
    decreases |items|
  {
    if items == [] then 0
    else if rule(items[0]).Some? then 0
    else 1 + FirstFailing(rule, items[1..])
  }

  /**
   * `z.array(schema).safeParse(items)` reduced to what the widget reads: the
   * batch passes when every item passes, and otherwise fails with the
   * message of the first failing item. Without a schema every batch passes.
   */
  function Validate(schema: Option<Rule>, items: seq<string>): (r: Outcome<string>)
    ensures schema.None? ==> r.Pass?
    ensures schema.Some? ==> (r.Pass? <==> forall i :: 0 <= i < |items| ==> schema.value(items[i]).None?)
    ensures r.Fail? ==> exists k :: (0 <= k < |items| && schema.value(items[k]) == Some(r.error)
      && forall j :: 0 <= j < k ==> schema.value(items[j]).None?)
  {
    match schema
    case None => Pass
    case Some(rule) =>
      var k := FirstFailing(rule, items);
      if k < |items| then Fail(rule(items[k]).value) else Pass
  }

  /**
   * `validateAndAdd(input)`: a rejected batch only sets the error; an
   * accepted one is merged into the list by ordered set union and clears
   * the error and the pending text. The window is untouched either way.
   */
  function ValidateAndAdd(s: State, input: string, schema: Option<Rule>): (r: State)
    ensures r.visible == s.visible
    ensures Validate(schema, Items(input)).Fail? ==>
      r == s.(error := Some(Validate(schema, Items(input)).error))
    ensures Validate(schema, Items(input)).Pass? ==>
      && r.pending == "" && r.error == None
      && NoDup(r.tags)
      && (forall x :: x in r.tags <==> x in s.tags || x in Items(input))
      && (NoDup(s.tags) ==> s.tags <= r.tags)
  {
    var items := Items(input);
    match Validate(schema, items)
    case Fail(message) => s.(error := Some(message))
    case Pass =>
      TagStore.UnionKeepsStore(s.tags, items);
      s.(tags := TagStore.Union(s.tags, items), error := None, pending := "")
  }

  /** Some item of the batch fails the rule. */
  predicate SomeItemFails(schema: Option<Rule>, items: seq<string>) {
    schema.Some? && exists i :: 0 <= i < |items| && schema.value(items[i]).Some?
  }

  /**
   * What a commit of `input` leads to: when some item fails, the list and
   * text are kept and the error is the first failing item's message; when
   * none fails, the text and error are cleared and the items are merged
   * into the list by ordered set union. The window is untouched.
   */
  predicate CommitOutcome(s: State, input: string, schema: Option<Rule>, r: State) {
    var items := Items(input);
    && r.visible == s.visible
    && (SomeItemFails(schema, items) ==>
          && r.tags == s.tags && r.pending == s.pending
          && Validate(schema, items).Fail? && r.error == Some(Validate(schema, items).error))
    && (!SomeItemFails(schema, items) ==>
          r.error == None && r.pending == "" && r.tags == TagStore.Union(s.tags, items))
  }

  /** `addPendingDataPoint`: commits the pending text unless it is empty. */
  function AddPending(s: State, schema: Option<Rule>): (r: State)
    ensures s.pending == "" ==> r == s
    ensures s.pending != "" ==> CommitOutcome(s, s.pending, schema, r)
  {
    if s.pending != "" then ValidateAndAdd(s, s.pending, schema) else s
  }

  /** The effect that commits the whole pending text once it holds a separator. */
  function AutoCommit(s: State, schema: Option<Rule>): (r: State)
    ensures Separator !in s.pending ==> r == s
    ensures Separator in s.pending ==> CommitOutcome(s, s.pending, schema, r)
  {
    if Separator in s.pending then ValidateAndAdd(s, s.pending, schema) else s
  }

  /** The input's `onChange`: the pending text is replaced, then the auto-commit effect runs. */
  function Type(s: State, text: string, schema: Option<Rule>): (r: State)
    ensures Separator !in text ==> r == s.(pending := text)
    ensures Separator in text ==> CommitOutcome(s.(pending := text), text, schema, r)
  {
    AutoCommit(s.(pending := text), schema)
  }

  /**
   * The input's `onKeyDown` handler: Enter and comma commit the pending
   * text, Backspace on an empty text drops the last tag, other keys do
   * nothing.
   */
  function KeyDown(s: State, key: Key, schema: Option<Rule>): (r: State)
    ensures (key == Enter || key == Comma) && s.pending == "" ==> r == s
    ensures (key == Enter || key == Comma) && s.pending != "" ==> CommitOutcome(s, s.pending, schema, r)
    ensures key == Backspace && s.pending == "" && s.tags != [] ==>
      && r.tags + [s.tags[|s.tags| - 1]] == s.tags
      && r.pending == s.pending && r.error == s.error && r.visible == s.visible
    ensures key == Backspace && (s.pending != "" || s.tags == []) ==> r == s
    ensures key == OtherKey ==> r == s
  {
    match key
    case Enter => AddPending(s, schema)
    case Comma => AddPending(s, schema)
    case Backspace =>
      if s.pending == "" && |s.tags| > 0 then s.(tags := s.tags[..|s.tags| - 1]) else s
    case OtherKey => s
  }

  /** A tag's remove button: the list without that value; nothing else changes. */
  function RemoveTag(s: State, item: string): (r: State)
    ensures item !in r.tags
    ensures forall x :: x in s.tags && x != item ==> x in r.tags
    ensures IsSubsequence(r.tags, s.tags)
    ensures r.pending == s.pending && r.error == s.error && r.visible == s.visible
  {
    s.(tags := TagStore.Remove(s.tags, item))
  }

  /** The parent's reset button: it empties the list it owns and nothing else. */
  function Reset(s: State): (r: State)
    ensures r.tags == [] && r.pending == s.pending && r.error == s.error && r.visible == s.visible
  {
    s.(tags := [])
  }

  /** The scroll listener; `nearBottom` is VisibleWindow.NearBottom of the container. */
  function ScrollNearBottom(s: State, nearBottom: bool): State {
    s.(visible := VisibleWindow.OnScroll(s.visible, |s.tags|, nearBottom))
  }

  /** The fill check; `fits` is VisibleWindow.ContentFits of the container. */
  function ContentDoesNotFill(s: State, fits: bool): State {
    s.(visible := VisibleWindow.OnFill(s.visible, |s.tags|, fits))
  }

  /** The reset effect on a change of the list length. */
  function LengthChanged(s: State): State {
    s.(visible := VisibleWindow.OnLengthChange(s.visible, |s.tags|))
  }

  /** The "+N more (scroll to load)" badge. */
  function OverflowBadge(s: State): Option<nat> {
    VisibleWindow.Overflow(s.visible, |s.tags|)
  }

  /** The tags rendered as badges: `value.slice(0, visibleCount)`. */
  function Rendered(s: State): (r: seq<string>)
    ensures r <= s.tags
    ensures |r| == VisibleWindow.RenderedCount(s.visible, |s.tags|)
  {
    s.tags[..VisibleWindow.Min(s.visible, |s.tags|)]
  }

  /**
   * The effects that follow a render: the reset effect, then the
   * auto-commit effect, then the reset effect for the render a successful
   * commit causes.
   */
  function Settle(s: State, schema: Option<Rule>): State {
    LengthChanged(AutoCommit(LengthChanged(s), schema))
  }

  /** One user or environment event. */
  datatype Event =
    | Typed(text: string)
    | Pressed(key: Key)
    | RemoveClicked(item: string)
    | ResetClicked
    | Scrolled(nearBottom: bool)
    | FillChecked(fits: bool)

  /** Handling one event, followed by the effects it triggers. */
  function Step(s: State, e: Event, schema: Option<Rule>): State {
    var handled := match e
      case Typed(text) => Type(s, text, schema)
      case Pressed(key) => KeyDown(s, key, schema)
      case RemoveClicked(item) => RemoveTag(s, item)
      case ResetClicked => Reset(s)
      case Scrolled(nearBottom) => ScrollNearBottom(s, nearBottom)
      case FillChecked(fits) => ContentDoesNotFill(s, fits);
    Settle(handled, schema)
  }

  /** A sequence of events from a given state. */
  function Run(s: State, events: seq<Event>, schema: Option<Rule>): State
    decreases |events|
  {
    if events == [] then s else Run(Step(s, events[0], schema), events[1..], schema)
  }

  /** What holds between events: a duplicate-free list and a window inside it. */
  predicate Invariant(s: State) {
    NoDup(s.tags) && s.visible <= |s.tags|
  }

  /**
   * All or nothing: a commit changes the list exactly when no item fails;
   * when one does, the list and pending text stay and the error is the
   * message of the first failing item.
   */
  lemma CommitAllOrNothing(s: State, input: string, schema: Option<Rule>)
    ensures var r := ValidateAndAdd(s, input, schema);
      var items := Items(input);
      && (SomeItemFails(schema, items) <==> r.error.Some?)
      && (SomeItemFails(schema, items) ==>
            && r.tags == s.tags && r.pending == s.pending
            && exists k :: (0 <= k < |items| && schema.value(items[k]) == r.error
                 && forall j :: 0 <= j < k ==> schema.value(items[j]).None?))
      && (!SomeItemFails(schema, items) ==> r.pending == "" && r.tags == TagStore.Union(s.tags, items))
  {
  }

  /**
   * An accepted batch keeps a duplicate-free list as it was and appends the
   * items not yet present, in the order of their first occurrence in the batch.
   */
  lemma AcceptedBatchAppends(s: State, input: string, schema: Option<Rule>)
    requires NoDup(s.tags)
    requires !SomeItemFails(schema, Items(input))
    ensures var r := ValidateAndAdd(s, input, schema);
      var items := Items(input);
      && r.tags[..|s.tags|] == s.tags
      && (forall i :: |s.tags| <= i < |r.tags| ==> r.tags[i] in items && r.tags[i] !in s.tags)
      && (forall x :: x in items && x !in s.tags ==> x in r.tags[|s.tags|..])
      && (forall i, j :: |s.tags| <= i < j < |r.tags| ==>
            TagStore.IndexOf(items, r.tags[i]) < TagStore.IndexOf(items, r.tags[j]))
  {
    var items := Items(input);
    var t := ValidateAndAdd(s, input, schema).tags;
    assert t == TagStore.AppendNew(s.tags, items) by {
      CommitAllOrNothing(s, input, schema);
      TagStore.UnionExtends(s.tags, items);
    }
    AppendNewShape(s.tags, items);
  }

  /** The shape of AppendNew's result, as the lemma above states it. */
  lemma AppendNewShape(tags: seq<string>, items: seq<string>)
    ensures var r := TagStore.AppendNew(tags, items);
      && r[..|tags|] == tags
      && (forall i :: |tags| <= i < |r| ==> r[i] in items && r[i] !in tags)
      && (forall x :: x in items && x !in tags ==> x in r[|tags|..])
      && (forall i, j :: |tags| <= i < j < |r| ==>
            TagStore.IndexOf(items, r[i]) < TagStore.IndexOf(items, r[j]))
  {
    var r := TagStore.AppendNew(tags, items);
    TagStore.AppendNewOrder(tags, items);
    forall x | x in items && x !in tags ensures x in r[|tags|..] {
      assert x in r;
      var i :| 0 <= i < |r| && r[i] == x;
      assert i >= |tags|;
      assert r[|tags|..][i - |tags|] == x;
    }
  }

  /** Without a schema every batch is accepted, empty items included. */
  lemma NoSchemaAcceptsAll(s: State, input: string)
    ensures ValidateAndAdd(s, input, None).tags == TagStore.Union(s.tags, Items(input))
    ensures ValidateAndAdd(s, input, None).error == None
    ensures "" in Items(input) ==> "" in ValidateAndAdd(s, input, None).tags
  {
  }

  /** The candidates of a comma-joined text are its trimmed pieces. */
  lemma ItemsOfJoin(parts: seq<string>)
    requires |parts| >= 1
    requires forall i :: 0 <= i < |parts| ==> Separator !in parts[i]
    ensures Items(JsString.Join(parts, Separator)) ==
      seq(|parts|, i requires 0 <= i < |parts| => JsString.Trim(parts[i]))
  {
    JsString.SplitJoin(parts, Separator);
  }

  /** A candidate with no white space and no separator. */
  predicate PlainItem(x: string) {
    x != [] && Separator !in x && forall c :: c in x ==> !JsString.IsJsWhiteSpace(c)
  }

  /** Plain items joined with the separator come back unchanged as the candidates. */
  lemma ItemsOfPlainJoin(xs: seq<string>)
    requires |xs| >= 1
    requires forall i :: 0 <= i < |xs| ==> PlainItem(xs[i])
    ensures Items(JsString.Join(xs, Separator)) == xs
    ensures JsString.Join(xs, Separator) != ""
  {
    ItemsOfJoin(xs);
    PlainItemsTrimmed(xs);
    assert xs[0] != [] && |JsString.Join(xs, Separator)| >= |xs[0]|;
  }

  /** Trimming each of a list of plain items changes none of them. */
  lemma PlainItemsTrimmed(xs: seq<string>)
    requires forall i :: 0 <= i < |xs| ==> PlainItem(xs[i])
    ensures seq(|xs|, i requires 0 <= i < |xs| => JsString.Trim(xs[i])) == xs
  {
    forall i | 0 <= i < |xs| ensures JsString.Trim(xs[i]) == xs[i] {
      PlainTrim(xs[i]);
    }
  }

  /**
   * Distinct plain items that all pass, typed comma-joined into a fresh
   * widget and committed with Enter, become exactly the list, in order.
   */
  lemma CommitFreshBatch(xs: seq<string>, schema: Option<Rule>)
    requires |xs| >= 1 && NoDup(xs)
    requires forall i :: 0 <= i < |xs| ==> PlainItem(xs[i])
    requires schema.Some? ==> forall i :: 0 <= i < |xs| ==> schema.value(xs[i]).None?
    ensures KeyDown(Mount([]).(pending := JsString.Join(xs, Separator)), Enter, schema).tags == xs
  {
    var text := JsString.Join(xs, Separator);
    var s := Mount([]).(pending := text);
    assert Items(text) == xs && text != "" by {
      ItemsOfPlainJoin(xs);
    }
    calc {
      KeyDown(s, Enter, schema).tags;
      { EnterCommits(s, schema); }
      ValidateAndAdd(s, text, schema).tags;
      { PassCommits(s, text, schema); }
      TagStore.Union([], xs);
      { assert [] + xs == xs; TagStore.DedupNoDup(xs); }
      xs;
    }
  }

  /** Enter on a non-empty text commits that text. */
  lemma EnterCommits(s: State, schema: Option<Rule>)
    requires s.pending != ""
    ensures KeyDown(s, Enter, schema) == ValidateAndAdd(s, s.pending, schema)
  {
  }

  /** A batch that passes validation is merged, and the text and error are cleared. */
  lemma PassCommits(s: State, input: string, schema: Option<Rule>)
    requires Validate(schema, Items(input)).Pass?
    ensures ValidateAndAdd(s, input, schema)
      == s.(tags := TagStore.Union(s.tags, Items(input)), error := None, pending := "")
  {
  }

  /** Two plain items joined by the separator are the two candidates. */
  lemma TwoItems(x: string, y: string)
    requires PlainItem(x) && PlainItem(y)
    ensures Items(x + [Separator] + y) == [x, y]
    ensures Separator in x + [Separator] + y
  {
    assert JsString.Join([x, y], Separator) == x + [Separator] + y;
    ItemsOfPlainJoin([x, y]);
    assert (x + [Separator] + y)[|x|] == Separator;
  }

  /** Committing "a,b" into an empty list lists a and b. */
  lemma CommitTwoFresh(s: State, a: string, b: string, schema: Option<Rule>)
    requires s.tags == [] && PlainItem(a) && PlainItem(b) && a != b
    requires schema.Some? ==> schema.value(a).None? && schema.value(b).None?
    ensures Type(s, a + [Separator] + b, schema).tags == [a, b]
  {
    TypedPairMerges(s, a, b, schema);
    UnionPairFresh(a, b);
  }

  /** Two distinct items merged into an empty list are listed in order. */
  lemma UnionPairFresh(a: string, b: string)
    requires a != b
    ensures TagStore.Union([], [a, b]) == [a, b]
  {
    assert [] + [a, b] == [a, b];
    assert NoDup([a, b]);
    TagStore.UnionFresh([], [a, b]);
  }

  /** Typing "x,y" with both passing merges x and y into the list. */
  lemma TypedPairMerges(s: State, x: string, y: string, schema: Option<Rule>)
    requires PlainItem(x) && PlainItem(y)
    requires schema.Some? ==> schema.value(x).None? && schema.value(y).None?
    ensures Type(s, x + [Separator] + y, schema).tags == TagStore.Union(s.tags, [x, y])
    ensures Type(s, x + [Separator] + y, schema).error == None
  {
    var text := x + [Separator] + y;
    TwoItems(x, y);
    TypedCommits(s, text, schema);
    PassCommits(s.(pending := text), text, schema);
  }

  /** Typing a text that holds the separator commits the whole text. */
  lemma TypedCommits(s: State, text: string, schema: Option<Rule>)
    requires Separator in text
    ensures Type(s, text, schema) == ValidateAndAdd(s.(pending := text), text, schema)
  {
  }

  /** Committing "a,c" into the list [a, b] appends only c. */
  lemma CommitOneNew(s: State, a: string, b: string, c: string, schema: Option<Rule>)
    requires s.tags == [a, b] && PlainItem(a) && PlainItem(c) && a != b && a != c && b != c
    requires schema.Some? ==> schema.value(a).None? && schema.value(c).None?
    ensures Type(s, a + [Separator] + c, schema).tags == [a, b, c]
    ensures Type(s, a + [Separator] + c, schema).error == None
  {
    TypedPairMerges(s, a, c, schema);
    UnionOneNew(a, b, c);
  }

  /** The union of [a, b] with [a, c] for distinct a, b, c. */
  lemma UnionOneNew(a: string, b: string, c: string)
    requires a != b && a != c && b != c
    ensures TagStore.Union([a, b], [a, c]) == [a, b, c]
  {
    var ab, ac := [a, b], [a, c];
    TagStore.UnionExtends(ab, ac);
    assert ac[0] in ab && ac[1..] == [c];
    assert TagStore.AppendNew(ab, ac) == TagStore.AppendNew(ab, [c]);
    TagStore.AppendNewFresh(ab, [c]);
  }

  /**
   * Committing "a,b" and then "a,c" (three distinct plain addresses that
   * pass) lists a, b and c, with a only once.
   */
  lemma CommitTwiceScenario(a: string, b: string, c: string, schema: Option<Rule>)
    requires PlainItem(a) && PlainItem(b) && PlainItem(c)
    requires a != b && a != c && b != c
    requires schema.Some? ==> schema.value(a).None? && schema.value(b).None? && schema.value(c).None?
    ensures var s1 := Type(Mount([]), a + [Separator] + b, schema);
      var s2 := Type(s1, a + [Separator] + c, schema);
      s1.tags == [a, b] && s2.tags == [a, b, c] && s2.error == None
  {
    CommitTwoFresh(Mount([]), a, b, schema);
    CommitOneNew(Type(Mount([]), a + [Separator] + b, schema), a, b, c, schema);
  }

  /** The text "a, bad, c" is the join of its three raw pieces. */
  lemma RejectText(a: string, bad: string, c: string)
    requires PlainItem(a) && PlainItem(bad) && PlainItem(c)
    ensures JsString.Join([a, [' '] + bad, [' '] + c], Separator)
      == a + [Separator, ' '] + bad + [Separator, ' '] + c
  {
    var parts := [a, [' '] + bad, [' '] + c];
    assert parts[1..][1..] == [[' '] + c];
    assert JsString.Join(parts[1..], Separator) == [' '] + bad + [Separator] + [' '] + c;
  }

  /** The candidates of "a, bad, c". */
  lemma RejectItems(a: string, bad: string, c: string)
    requires PlainItem(a) && PlainItem(bad) && PlainItem(c)
    ensures var items := Items(a + [Separator, ' '] + bad + [Separator, ' '] + c);
      |items| == 3 && items[0] == a && items[1] == bad && items[2] == c
  {
    var text := a + [Separator, ' '] + bad + [Separator, ' '] + c;
    var parts := [a, [' '] + bad, [' '] + c];
    assert Items(text) == seq(3, i requires 0 <= i < 3 => JsString.Trim(parts[i])) by {
      RejectText(a, bad, c);
      ItemsOfJoin(parts);
    }
    assert JsString.Trim(a) == a by {
      PlainTrim(a);
    }
    assert JsString.Trim([' '] + bad) == bad by {
      TrimLeadingSpace(bad);
    }
    assert JsString.Trim([' '] + c) == c by {
      TrimLeadingSpace(c);
    }
  }

  /**
   * The batch "a, bad, c" with `bad` failing leaves the list alone, keeps
   * the text, and reports the failure of `bad`.
   */
  lemma RejectScenario(a: string, bad: string, c: string, rule: Rule, message: string)
    requires PlainItem(a) && PlainItem(bad) && PlainItem(c)
    requires rule(a).None? && rule(bad) == Some(message)
    ensures var text := a + [Separator, ' '] + bad + [Separator, ' '] + c;
      var s := Type(Mount([]), text, Some(rule));
      s.tags == [] && s.error == Some(message) && s.pending == text
  {
    var text := a + [Separator, ' '] + bad + [Separator, ' '] + c;
    assert Separator in text by {
      assert text[|a|] == Separator;
    }
    TypedCommits(Mount([]), text, Some(rule));
    RejectItems(a, bad, c);
    SecondItemFails(Items(text), rule, message);
  }

  /** A batch whose first item passes and whose second fails is rejected with the second's message. */
  lemma SecondItemFails(items: seq<string>, rule: Rule, message: string)
    requires |items| >= 2 && rule(items[0]).None? && rule(items[1]) == Some(message)
    ensures Validate(Some(rule), items) == Fail(message)
  {
    assert items[1..][0] == items[1];
    assert FirstFailing(rule, items) == 1;
  }

  /** Trimming leaves a plain item alone. */
  lemma PlainTrim(x: string)
    requires PlainItem(x)
    ensures JsString.TrimStart(x) == x && JsString.TrimEnd(x) == x && JsString.Trim(x) == x
  {
    assert x[0] in x && x[|x| - 1] in x;
  }

  /** One leading space is trimmed off a plain item. */
  lemma TrimLeadingSpace(x: string)
    requires PlainItem(x)
    ensures JsString.Trim([' '] + x) == x
  {
    assert ([' '] + x)[1..] == x;
    PlainTrim(x);
    assert JsString.TrimStart([' '] + x) == x;
  }

  /** Re-running the auto-commit effect changes nothing more. */
  lemma AutoCommitIdempotent(s: State, schema: Option<Rule>)
    ensures AutoCommit(AutoCommit(s, schema), schema) == AutoCommit(s, schema)
  {
  }

  /** The remove button on a duplicate-free list deletes exactly that tag's position. */
  lemma RemoveTagAt(s: State, k: nat)
    requires NoDup(s.tags) && k < |s.tags|
    ensures RemoveTag(s, s.tags[k]).tags == s.tags[..k] + s.tags[k + 1..]
  {
    TagStore.RemoveAt(s.tags, k);
  }

  /** The settling effects leave the window inside a duplicate-free list. */
  lemma SettleEstablishes(s: State, schema: Option<Rule>)
    requires NoDup(s.tags)
    ensures Invariant(Settle(s, schema))
  {
    var s1 := LengthChanged(s);
    var s2 := AutoCommit(s1, schema);
    assert NoDup(s2.tags) && |s1.tags| <= |s2.tags| by {
      TagStore.UnionKeepsStore(s1.tags, Items(s1.pending));
    }
  }

  /** Every handler keeps the list duplicate-free. */
  lemma HandlerKeepsNoDup(s: State, e: Event, schema: Option<Rule>)
    requires NoDup(s.tags)
    ensures e.Typed? ==> NoDup(Type(s, e.text, schema).tags)
    ensures e.Pressed? ==> NoDup(KeyDown(s, e.key, schema).tags)
    ensures e.RemoveClicked? ==> NoDup(RemoveTag(s, e.item).tags)
  {
    if e.RemoveClicked? {
      TagStore.RemoveNoDup(s.tags, e.item);
    }
  }

  /** One event keeps the invariant. */
  lemma StepKeepsInvariant(s: State, e: Event, schema: Option<Rule>)
    requires Invariant(s)
    ensures Invariant(Step(s, e, schema))
  {
    HandlerKeepsNoDup(s, e, schema);
    var handled := match e
      case Typed(text) => Type(s, text, schema)
      case Pressed(key) => KeyDown(s, key, schema)
      case RemoveClicked(item) => RemoveTag(s, item)
      case ResetClicked => Reset(s)
      case Scrolled(nearBottom) => ScrollNearBottom(s, nearBottom)
      case FillChecked(fits) => ContentDoesNotFill(s, fits);
    assert NoDup(handled.tags);
    SettleEstablishes(handled, schema);
  }

  /**
   * From a mounted widget over a duplicate-free list, every sequence of
   * events keeps the list duplicate-free and the window inside it.
   */
  lemma {:induction false} RunKeepsInvariant(s: State, events: seq<Event>, schema: Option<Rule>)
    requires Invariant(s)
    ensures Invariant(Run(s, events, schema))
    decreases |events|
  {
    if events != [] {
      StepKeepsInvariant(s, events[0], schema);
      RunKeepsInvariant(Step(s, events[0], schema), events[1..], schema);
    }
  }

  /** Mounting over a duplicate-free list and settling establishes the invariant. */
  lemma MountEstablishes(tags: seq<string>, schema: Option<Rule>)
    requires NoDup(tags)
    ensures Invariant(Settle(Mount(tags), schema))
    ensures |tags| < 200 ==> Settle(Mount(tags), schema).visible == VisibleWindow.Min(100, |tags|)
  {
    SettleEstablishes(Mount(tags), schema);
  }
}
