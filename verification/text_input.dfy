/** `TextInput`: a single-line editor whose cursor is a BYTE offset into the
    UTF-8 encoding of its value, and must always sit on a code-point boundary. */
module TextInputWidget {
  import opened Options
  import opened Utf8
  import opened Keys

  datatype TextInput = TextInput(value: string, cursor: nat, defaultText: Option<string>, labelText: string)

  datatype Action = Submit(text: string) | Cancel | Continue | Terminate(status: int)

  /** The editor invariant: the cursor never splits a code point (and so lies
      within the encoded value, see `Utf8.BoundaryBound`). */
  predicate Valid(t: TextInput) {
    IsBoundary(t.value, t.cursor)
  }

  /** Number of characters in front of the cursor. */
  function Pos(t: TextInput): nat
    requires Valid(t)
  {
    CharIndex(t.value, t.cursor)
  }

  /** Edits never touch the default or the label. */
  predicate SameConfig(a: TextInput, b: TextInput) {
    a.defaultText == b.defaultText && a.labelText == b.labelText
  }

  function New(labelText: string): (t: TextInput)
    ensures Valid(t) && t.value == "" && t.cursor == 0
    ensures t.defaultText == None && t.labelText == labelText
  {
    TextInput("", 0, None, labelText)
  }

  function WithDefault(t: TextInput, defaultText: string): (r: TextInput)
    requires Valid(t)
    ensures Valid(r) && r.value == t.value && r.cursor == t.cursor && r.defaultText == Some(defaultText)
  {
    t.(defaultText := Some(defaultText))
  }

  /** Replaces the value and puts the cursor after its last character. */
  function WithInitial(t: TextInput, initial: string): (r: TextInput)
    ensures Valid(r) && r.value == initial && Pos(r) == |initial|
    ensures r.cursor == ByteLen(initial) && SameConfig(r, t)
  {
    PrefixIsBoundary(initial, |initial|);
    assert initial[..|initial|] == initial;
    t.(value := initial, cursor := ByteLen(initial))
  }

  /** What Enter submits: the typed value, else the default, else nothing. */
  function ResultText(t: TextInput): (r: string)
    ensures |t.value| > 0 ==> r == t.value
    ensures |t.value| == 0 && t.defaultText.Some? ==> r == t.defaultText.value
    ensures |r| == 0 <==> |t.value| == 0 && (t.defaultText.None? || |t.defaultText.value| == 0)
  {
    if |t.value| == 0 then t.defaultText.GetOr("") else t.value
  }

  /** Byte length of the character just before the boundary `k`, or 0 at the
      start (`s[..k].chars().last().map(len_utf8).unwrap_or(0)`). */
  function PrevCharLen(s: string, k: nat): (n: nat)
    requires IsBoundary(s, k)
    ensures k > 0 ==> CharIndex(s, k) > 0 && n == CharLen(s[CharIndex(s, k) - 1])
    ensures k > 0 ==> n <= k && IsBoundary(s, k - n) && CharIndex(s, k - n) == CharIndex(s, k) - 1
    ensures k == 0 ==> n == 0
  {
    var i := CharIndex(s, k);
    if i == 0 then 0
    else
      ByteLenPrefixStep(s, i);
      PrefixIsBoundary(s, i - 1);
      CharLen(s[i - 1])
  }

  /** Byte length of the character starting at the boundary `k`, or 0 at the
      end (`s[k..].chars().next().map(len_utf8).unwrap_or(0)`). */
  function NextCharLen(s: string, k: nat): (n: nat)
    requires IsBoundary(s, k)
    ensures k < ByteLen(s) ==> CharIndex(s, k) < |s| && n == CharLen(s[CharIndex(s, k)])
    ensures k < ByteLen(s) ==> IsBoundary(s, k + n) && CharIndex(s, k + n) == CharIndex(s, k) + 1
    ensures k >= ByteLen(s) ==> n == 0
  {
    var i := CharIndex(s, k);
    BoundaryBound(s, k);
    if i == |s| then 0
    else
      ByteLenPrefixStep(s, i + 1);
      PrefixIsBoundary(s, i + 1);
      CharLen(s[i])
  }

  /** `String::insert(k, c)` at a boundary. */
  function InsertAt(s: string, k: nat, c: char): string
    requires IsBoundary(s, k)
  {
    var i := CharIndex(s, k);
    s[..i] + [c] + s[i..]
  }

  /** `String::remove(k)` at a boundary in front of a character. */
  function RemoveAt(s: string, k: nat): string
    requires IsBoundary(s, k) && CharIndex(s, k) < |s|
  {
    var i := CharIndex(s, k);
    s[..i] + s[i + 1..]
  }

  /** Inserts `c` at the cursor and moves the cursor past it. */
  function InsertChar(t: TextInput, c: char): (r: TextInput)
    requires Valid(t)
    ensures Valid(r) && SameConfig(r, t)
    ensures r.cursor == t.cursor + CharLen(c)
    ensures Pos(r) == Pos(t) + 1
    ensures r.value == t.value[..Pos(t)] + [c] + t.value[Pos(t)..]
  {
    var i := Pos(t);
    var v := InsertAt(t.value, t.cursor, c);
    assert v[..i + 1] == t.value[..i] + [c];
    ByteLenConcat(t.value[..i], [c]);
    PrefixIsBoundary(v, i + 1);
    t.(value := v, cursor := t.cursor + CharLen(c))
  }

  /** Backspace: removes the character before the cursor and moves the cursor
      back over it; nothing happens at the start. */
  function DeleteChar(t: TextInput): (r: TextInput)
    requires Valid(t)
    ensures Valid(r) && SameConfig(r, t)
    ensures t.cursor == 0 ==> r == t
    ensures t.cursor > 0 ==> Pos(t) > 0 && Pos(r) == Pos(t) - 1
    ensures t.cursor > 0 ==> r.cursor == t.cursor - CharLen(t.value[Pos(t) - 1])
    ensures t.cursor > 0 ==> r.value == t.value[..Pos(t) - 1] + t.value[Pos(t)..]
  {
    if t.cursor > 0 then
      var k := t.cursor - PrevCharLen(t.value, t.cursor);
      var i := Pos(t) - 1;
      var v := RemoveAt(t.value, k);
      assert v[..i] == t.value[..i];
      PrefixIsBoundary(v, i);
      t.(value := v, cursor := k)
    else
      t
  }

  /** Delete: removes the character at the cursor; the cursor stays; nothing
      happens at the end. */
  function DeleteForward(t: TextInput): (r: TextInput)
    requires Valid(t)
    ensures Valid(r) && SameConfig(r, t) && r.cursor == t.cursor
    ensures t.cursor >= ByteLen(t.value) ==> r == t
    ensures t.cursor < ByteLen(t.value) ==> Pos(t) < |t.value| && Pos(r) == Pos(t)
    ensures t.cursor < ByteLen(t.value) ==> r.value == t.value[..Pos(t)] + t.value[Pos(t) + 1..]
  {
    if t.cursor < ByteLen(t.value) then
      var i := Pos(t);
      BoundaryBound(t.value, t.cursor);
      var v := RemoveAt(t.value, t.cursor);
      assert v[..i] == t.value[..i];
      PrefixIsBoundary(v, i);
      t.(value := v)
    else
      t
  }

  /** Moves the cursor one character left; nothing happens at the start. */
  function MoveLeft(t: TextInput): (r: TextInput)
    requires Valid(t)
    ensures Valid(r) && SameConfig(r, t) && r.value == t.value
    ensures t.cursor == 0 ==> r == t
    ensures t.cursor > 0 ==> Pos(r) == Pos(t) - 1
  {
    if t.cursor > 0 then t.(cursor := t.cursor - PrevCharLen(t.value, t.cursor)) else t
  }

  /** Moves the cursor one character right; nothing happens at the end. */
  function MoveRight(t: TextInput): (r: TextInput)
    requires Valid(t)
    ensures Valid(r) && SameConfig(r, t) && r.value == t.value
    ensures t.cursor >= ByteLen(t.value) ==> r == t
    ensures t.cursor < ByteLen(t.value) ==> Pos(r) == Pos(t) + 1
  {
    if t.cursor < ByteLen(t.value) then t.(cursor := t.cursor + NextCharLen(t.value, t.cursor)) else t
  }

  function MoveHome(t: TextInput): (r: TextInput)
    ensures Valid(r) && SameConfig(r, t) && r.value == t.value && Pos(r) == 0
  {
    t.(cursor := 0)
  }

  function MoveEnd(t: TextInput): (r: TextInput)
    ensures Valid(r) && SameConfig(r, t) && r.value == t.value && Pos(r) == |t.value|
  {
    WithInitial(t, t.value)
  }

  /** One key event: Enter submits, Esc cancels, Ctrl+C ends the process, the
      editing keys edit, and everything else is ignored. */
  function HandleEvent(t: TextInput, e: Event): (r: (TextInput, Action))
    requires Valid(t)
    ensures Valid(r.0) && SameConfig(r.0, t)
    ensures IsInterrupt(e) ==> r == (t, Terminate(InterruptStatus))
    ensures !IsInterrupt(e) && IsKey(e, Enter) ==> r == (t, Submit(ResultText(t)))
    ensures !IsInterrupt(e) && IsKey(e, Esc) ==> r == (t, Cancel)
    ensures !IsInterrupt(e) && e.Key? && e.code.Char? ==> r == (InsertChar(t, e.code.c), Continue)
    ensures !IsInterrupt(e) && IsKey(e, Backspace) ==> r == (DeleteChar(t), Continue)
    ensures !IsInterrupt(e) && IsKey(e, Delete) ==> r == (DeleteForward(t), Continue)
    ensures !IsInterrupt(e) && IsKey(e, Left) ==> r == (MoveLeft(t), Continue)
    ensures !IsInterrupt(e) && IsKey(e, Right) ==> r == (MoveRight(t), Continue)
    ensures !IsInterrupt(e) && IsKey(e, Home) ==> r == (MoveHome(t), Continue)
    ensures !IsInterrupt(e) && IsKey(e, End) ==> r == (MoveEnd(t), Continue)
    ensures r.1.Submit? ==> IsKey(e, Enter)
    ensures r.1.Cancel? ==> IsKey(e, Esc)
    ensures r.1.Terminate? <==> IsInterrupt(e)
    ensures r.1 == Continue ==> r.0.value != t.value ==> e.Key? && (e.code.Char? || e.code in {Backspace, Delete})
    ensures (e.NonKey? || e.code in {Up, Down, Tab, OtherKey}) ==> r == (t, Continue)
  {
    match e
    case NonKey => (t, Continue)
    case Key(code, _) =>
      if IsInterrupt(e) then (t, Terminate(InterruptStatus))
      else
        match code
        case Enter => (t, Submit(ResultText(t)))
        case Esc => (t, Cancel)
        case Char(c) => (InsertChar(t, c), Continue)
        case Backspace => (DeleteChar(t), Continue)
        case Delete => (DeleteForward(t), Continue)
        case Left => (MoveLeft(t), Continue)
        case Right => (MoveRight(t), Continue)
        case Home => (MoveHome(t), Continue)
        case End => (MoveEnd(t), Continue)
        case _ => (t, Continue)
  }

  /** Column of the terminal cursor in the rendered input line: the `"  > "`
      prompt is four cells, then one cell per character before the cursor. */
  function CursorColumn(t: TextInput): (col: nat)
    requires Valid(t)
    ensures 4 <= col <= 4 + |t.value|
    ensures ByteLen(t.value[..col - 4]) == t.cursor
  {
    4 + Pos(t)
  }

  /** Feeds a sequence of events, stopping at the first that ends the widget
      (a submit, cancel or terminate); returns the final state and the action
      that ended it, or `Continue` when the events ran out. */
  function Run(t: TextInput, es: seq<Event>): (r: (TextInput, Action))
    requires Valid(t)
    ensures Valid(r.0) && SameConfig(r.0, t)
    decreases |es|
  {
    if |es| == 0 then (t, Continue)
    else
      var (t', a) := HandleEvent(t, es[0]);
      if a == Continue then Run(t', es[1..]) else (t', a)
  }

  /** The events of typing `s` key by key. */
  function Typing(s: string): (es: seq<Event>)
    ensures |es| == |s| && forall i :: 0 <= i < |s| ==> es[i] == Press(Char(s[i]))
  {
    seq(|s|, i requires 0 <= i < |s| => Press(Char(s[i])))
  }

  // ---------------------------------------------------------------- properties

  /** Backspace undoes typing a character. */
  lemma InsertThenDelete(t: TextInput, c: char)
    requires Valid(t)
    ensures DeleteChar(InsertChar(t, c)) == t
  {
    var i := Pos(t);
    var t1 := InsertChar(t, c);
    var t2 := DeleteChar(t1);
    assert t1.value[i] == c;
    assert t2.value == t.value;
  }

  /** Left undoes Right away from the end, and Right undoes Left away from the start. */
  lemma MoveRightThenLeft(t: TextInput)
    requires Valid(t) && t.cursor < ByteLen(t.value)
    ensures MoveLeft(MoveRight(t)) == t
  {
    var r := MoveLeft(MoveRight(t));
    BoundaryUnique(t.value, r.cursor, t.cursor);
  }

  lemma MoveLeftThenRight(t: TextInput)
    requires Valid(t) && t.cursor > 0
    ensures MoveRight(MoveLeft(t)) == t
  {
    var l := MoveLeft(t);
    BoundaryBound(t.value, l.cursor);
    BoundaryBound(t.value, t.cursor);
    var r := MoveRight(l);
    BoundaryUnique(t.value, r.cursor, t.cursor);
  }

  /** Delete is Right followed by Backspace. */
  lemma DeleteForwardIsRightThenBackspace(t: TextInput)
    requires Valid(t) && t.cursor < ByteLen(t.value)
    ensures DeleteForward(t) == DeleteChar(MoveRight(t))
  {
    var i := Pos(t);
    var a := DeleteForward(t);
    var m := MoveRight(t);
    var b := DeleteChar(m);
    BoundaryUnique(a.value, a.cursor, b.cursor);
  }

  /** Typing one character at the end appends it. */
  lemma TypeOne(t: TextInput, c: char)
    requires Valid(t) && t.cursor == ByteLen(t.value)
    ensures HandleEvent(t, Press(Char(c))) == (WithInitial(t, t.value + [c]), Continue)
  {
    BoundaryBound(t.value, t.cursor);
    var t' := InsertChar(t, c);
    assert HandleEvent(t, Press(Char(c))) == (t', Continue);
    assert t'.value == t.value + [c];
    ByteLenConcat(t.value, [c]);
  }

  lemma TypingStep(t: TextInput, s: string)
    requires Valid(t) && |s| > 0
    ensures var (t', a) := HandleEvent(t, Press(Char(s[0])));
            a == Continue ==> Run(t, Typing(s)) == Run(t', Typing(s[1..]))
  {
    var e := Typing(s);
    assert e[0] == Press(Char(s[0])) && e[1..] == Typing(s[1..]);
  }

  lemma AppendHead(a: string, s: string)
    requires |s| > 0
    ensures (a + [s[0]]) + s[1..] == a + s
  {
  }

  /** Typing `s` into an input positioned after `prefix` appends it and
      leaves the cursor at the end. */
  lemma {:induction false} TypingAppends(t: TextInput, s: string)
    requires Valid(t) && t.cursor == ByteLen(t.value)
    ensures Run(t, Typing(s)).1 == Continue
    ensures Run(t, Typing(s)).0 == WithInitial(t, t.value + s)
    decreases |s|
  {
    if |s| == 0 {
      assert t.value + s == t.value;
      BoundaryBound(t.value, t.cursor);
    } else {
      var t' := WithInitial(t, t.value + [s[0]]);
      TypeOne(t, s[0]);
      TypingStep(t, s);
      TypingAppends(t', s[1..]);
      AppendHead(t.value, s);
    }
  }

  /** Typing `s` into a fresh input and pressing Enter submits `s`, or the
      default when nothing was typed. */
  lemma TypeThenSubmit(labelText: string, defaultText: string, s: string)
    ensures var t := Run(WithDefault(New(labelText), defaultText), Typing(s)).0;
            HandleEvent(t, Press(Enter)).1 == Submit(if |s| > 0 then s else defaultText)
  {
    var t0 := WithDefault(New(labelText), defaultText);
    TypingAppends(t0, s);
    assert t0.value + s == s;
  }
}
