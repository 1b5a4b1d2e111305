/** `Confirm`: a yes/no toggle that starts on "No", with y/n accelerators. */
module ConfirmWidget {
  import opened Strings
  import opened Keys

  datatype Confirm = Confirm(labelText: string, selected: bool)   // selected: true = "Yes"

  datatype Action = Confirmed(answer: bool) | Cancel | Continue | Terminate(status: int)

  function New(labelText: string): (c: Confirm)
    ensures !c.selected && c.labelText == labelText
  {
    Confirm(labelText, false)
  }

  predicate IsToggle(e: Event) {
    e.Key? && e.code in {Left, Right, Tab}
  }

  predicate IsYes(e: Event) {
    IsKey(e, Char('y')) || IsKey(e, Char('Y'))
  }

  predicate IsNo(e: Event) {
    IsKey(e, Char('n')) || IsKey(e, Char('N'))
  }

  function HandleEvent(c: Confirm, e: Event): (r: (Confirm, Action))
    ensures r.0.labelText == c.labelText
    ensures r.0.selected == (c.selected != (!IsInterrupt(e) && IsToggle(e)))
    ensures r.1 == Terminate(InterruptStatus) <==> IsInterrupt(e)
    ensures r.1 == Confirmed(true) <==> !IsInterrupt(e) && (IsYes(e) || (IsKey(e, Enter) && c.selected))
    ensures r.1 == Confirmed(false) <==> !IsInterrupt(e) && (IsNo(e) || (IsKey(e, Enter) && !c.selected))
    ensures r.1 == Cancel <==> IsKey(e, Esc)
    ensures r.1 == Continue <==> !IsInterrupt(e) && !IsYes(e) && !IsNo(e)
                                 && !IsKey(e, Enter) && !IsKey(e, Esc)
    ensures r.1.Terminate? || r.1.Confirmed? || r.1 == Cancel || r.1 == Continue
    ensures r.1 != Continue ==> r.0 == c
  {
    match e
    case NonKey => (c, Continue)
    case Key(code, _) =>
      if IsInterrupt(e) then (c, Terminate(InterruptStatus))
      else
        match code
        case Enter => (c, Confirmed(c.selected))
        case Esc => (c, Cancel)
        case Char(ch) =>
          if ch == 'y' || ch == 'Y' then (c, Confirmed(true))
          else if ch == 'n' || ch == 'N' then (c, Confirmed(false))
          else (c, Continue)
        case Left => (c.(selected := !c.selected), Continue)
        case Right => (c.(selected := !c.selected), Continue)
        case Tab => (c.(selected := !c.selected), Continue)
        case _ => (c, Continue)
  }

  /** A button's text is highlighted by square brackets. */
  predicate Bracketed(s: string) {
    '[' in s && ']' in s
  }

  /** The "No" button: bracketed when "No" is selected. */
  function NoButton(selected: bool): (r: string)
    ensures Bracketed(r) <==> !selected
    ensures OccursAt(r, "No", 2) && |r| == 6 + (if selected then 0 else 1)
  {
    if selected then
      var t := "  No  ";
      assert t[0] != '[' && t[1] != '[' && t[2] != '[' && t[3] != '[' && t[4] != '[' && t[5] != '[';
      t
    else
      var t := " [No]  ";
      assert t[1] == '[' && t[4] == ']';
      t
  }

  /** The "Yes" button: bracketed when "Yes" is selected. */
  function YesButton(selected: bool): (r: string)
    ensures Bracketed(r) <==> selected
    ensures OccursAt(r, "Yes", 2) && |r| == 7
  {
    if selected then
      var t := " [Yes] ";
      assert t[1] == '[' && t[5] == ']';
      t
    else
      var t := "  Yes  ";
      assert t[0] != '[' && t[1] != '[' && t[2] != '[' && t[3] != '[' && t[4] != '[' && t[5] != '[' && t[6] != '[';
      t
  }

  /** The "No" and "Yes" button texts: exactly one of them is bracketed, the
      one that is selected, and each shows its word. */
  function ButtonTexts(selected: bool): (r: (string, string))
    ensures Bracketed(r.0) != Bracketed(r.1)
    ensures Bracketed(r.1) <==> selected
    ensures Contains(r.0, "No") && Contains(r.1, "Yes")
  {
    var no, yes := NoButton(selected), YesButton(selected);
    ContainsAt(no, "No");
    ContainsAt(yes, "Yes");
    (no, yes)
  }

  // ---------------------------------------------------------------- properties

  /** Two toggles restore the selection. */
  lemma ToggleTwice(c: Confirm, e1: Event, e2: Event)
    requires IsToggle(e1) && IsToggle(e2) && !IsInterrupt(e1) && !IsInterrupt(e2)
    ensures HandleEvent(HandleEvent(c, e1).0, e2).0 == c
  {
  }

  /** Enter right after a toggle answers the opposite of the previous selection. */
  lemma EnterAfterToggle(c: Confirm, e: Event)
    requires IsToggle(e) && !IsInterrupt(e)
    ensures HandleEvent(HandleEvent(c, e).0, Press(Enter)).1 == Confirmed(!c.selected)
  {
  }

  /** Enter on a fresh prompt answers "No". */
  lemma FreshEnterIsNo(labelText: string)
    ensures HandleEvent(New(labelText), Press(Enter)).1 == Confirmed(false)
  {
  }
}
