/** `StepBar`: a one-line progress indicator. Rendering is modelled as the
    sequence of styled spans the line is built from; each span also records
    which part of the bar it draws. */
module StepBarWidget {

  datatype Style = Raw | Dim | Green | Cyan

  datatype Part = Lead | Separator | Marker | Label

  datatype Span = Span(part: Part, text: string, style: Style)

  datatype StepStatus = Completed | Active | Pending

  const LeadSpan: Span := Span(Lead, "  ", Raw)
  const SeparatorSpan: Span := Span(Separator, "  ›  ", Dim)
  const CheckSpan: Span := Span(Marker, "✓ ", Green)
  const DotSpan: Span := Span(Marker, "● ", Cyan)

  /** Steps before `current` are done, the step at `current` is in progress,
      and the rest are still to come. */
  function Classify(i: nat, current: nat): (s: StepStatus)
    ensures s == Completed <==> i < current
    ensures s == Active <==> i == current
    ensures s == Pending <==> i > current
  {
    if i < current then Completed else if i == current then Active else Pending
  }

  function LabelStyle(s: StepStatus): Style {
    match s
    case Completed => Green
    case Active => Cyan
    case Pending => Dim
  }

  /** The spans of step `i`: a separator unless it is the first step, the
      marker of its status (pending steps have none), then its label. */
  function StepSpans(name: string, i: nat, current: nat): seq<Span> {
    var status := Classify(i, current);
    (if i > 0 then [SeparatorSpan] else [])
    + (match status
       case Completed => [CheckSpan]
       case Active => [DotSpan]
       case Pending => [])
    + [Span(Label, name, LabelStyle(status))]
  }

  function RenderFrom(steps: seq<string>, current: nat, i: nat): seq<Span>
    requires i <= |steps|
    decreases |steps| - i
  {
    if i == |steps| then [] else StepSpans(steps[i], i, current) + RenderFrom(steps, current, i + 1)
  }

  /** The spans of the whole bar, after a two-space lead. */
  function Render(steps: seq<string>, current: nat): (r: seq<Span>)
    ensures |r| > 0 && r[0] == LeadSpan
  {
    [LeadSpan] + RenderFrom(steps, current, 0)
  }

  // ---------------------------------------------------------------- views of the spans

  /** The label texts, in order. */
  function Labels(spans: seq<Span>): seq<string>
    decreases |spans|
  {
    if |spans| == 0 then []
    else (if spans[0].part == Label then [spans[0].text] else []) + Labels(spans[1..])
  }

  /** The label styles, in order. */
  function LabelStyles(spans: seq<Span>): seq<Style>
    decreases |spans|
  {
    if |spans| == 0 then []
    else (if spans[0].part == Label then [spans[0].style] else []) + LabelStyles(spans[1..])
  }

  /** How many spans equal `s`. */
  function Count(spans: seq<Span>, s: Span): nat
    decreases |spans|
  {
    if |spans| == 0 then 0 else (if spans[0] == s then 1 else 0) + Count(spans[1..], s)
  }

  lemma {:induction false} LabelsConcat(a: seq<Span>, b: seq<Span>)
    ensures Labels(a + b) == Labels(a) + Labels(b)
    decreases |a|
  {
    if |a| == 0 {
      assert a + b == b;
    } else {
      var ab := a + b;
      assert ab[0] == a[0];
      assert ab[1..] == a[1..] + b;
      assert Labels(ab) == (if a[0].part == Label then [a[0].text] else []) + Labels(a[1..] + b);
      assert Labels(a) == (if a[0].part == Label then [a[0].text] else []) + Labels(a[1..]);
      LabelsConcat(a[1..], b);
    }
  }

  lemma {:induction false} StylesConcat(a: seq<Span>, b: seq<Span>)
    ensures LabelStyles(a + b) == LabelStyles(a) + LabelStyles(b)
    decreases |a|
  {
    if |a| == 0 {
      assert a + b == b;
    } else {
      var ab := a + b;
      assert ab[0] == a[0];
      assert ab[1..] == a[1..] + b;
      assert LabelStyles(ab) == (if a[0].part == Label then [a[0].style] else []) + LabelStyles(a[1..] + b);
      assert LabelStyles(a) == (if a[0].part == Label then [a[0].style] else []) + LabelStyles(a[1..]);
      StylesConcat(a[1..], b);
    }
  }

  lemma {:induction false} CountConcat(a: seq<Span>, b: seq<Span>, s: Span)
    ensures Count(a + b, s) == Count(a, s) + Count(b, s)
    decreases |a|
  {
    if |a| == 0 {
      assert a + b == b;
    } else {
      var ab := a + b;
      assert ab[0] == a[0];
      assert ab[1..] == a[1..] + b;
      assert Count(ab, s) == (if a[0] == s then 1 else 0) + Count(a[1..] + b, s);
      CountConcat(a[1..], b, s);
    }
  }

  function Min(a: nat, b: nat): nat {
    if a < b then a else b
  }

  /** The three pieces of one step's spans. */
  lemma StepSpansParts(name: string, i: nat, current: nat)
    ensures var status := Classify(i, current);
            StepSpans(name, i, current)
            == (if i > 0 then [SeparatorSpan] else [])
               + (if status == Completed then [CheckSpan] else if status == Active then [DotSpan] else [])
               + [Span(Label, name, LabelStyle(status))]
  {
  }

  lemma StepSpansViews(name: string, i: nat, current: nat)
    ensures Labels(StepSpans(name, i, current)) == [name]
    ensures LabelStyles(StepSpans(name, i, current)) == [LabelStyle(Classify(i, current))]
    ensures Count(StepSpans(name, i, current), SeparatorSpan) == (if i > 0 then 1 else 0)
    ensures Count(StepSpans(name, i, current), DotSpan) == (if i == current then 1 else 0)
    ensures Count(StepSpans(name, i, current), CheckSpan) == (if i < current then 1 else 0)
  {
    StepSpansLabelViews(name, i, current);
    StepSpansCountViews(name, i, current, SeparatorSpan);
    StepSpansCountViews(name, i, current, DotSpan);
    StepSpansCountViews(name, i, current, CheckSpan);
  }

  lemma StepSpansLabelViews(name: string, i: nat, current: nat)
    ensures Labels(StepSpans(name, i, current)) == [name]
    ensures LabelStyles(StepSpans(name, i, current)) == [LabelStyle(Classify(i, current))]
  {
    var status := Classify(i, current);
    var sep: seq<Span> := if i > 0 then [SeparatorSpan] else [];
    var mark: seq<Span> := if status == Completed then [CheckSpan] else if status == Active then [DotSpan] else [];
    var lab := [Span(Label, name, LabelStyle(status))];
    StepSpansParts(name, i, current);
    LabelsConcat(sep + mark, lab);
    LabelsConcat(sep, mark);
    StylesConcat(sep + mark, lab);
    StylesConcat(sep, mark);
  }

  lemma StepSpansCountViews(name: string, i: nat, current: nat, x: Span)
    requires x == SeparatorSpan || x == DotSpan || x == CheckSpan
    ensures x == SeparatorSpan ==> Count(StepSpans(name, i, current), x) == (if i > 0 then 1 else 0)
    ensures x == DotSpan ==> Count(StepSpans(name, i, current), x) == (if i == current then 1 else 0)
    ensures x == CheckSpan ==> Count(StepSpans(name, i, current), x) == (if i < current then 1 else 0)
  {
    var status := Classify(i, current);
    var sep: seq<Span> := if i > 0 then [SeparatorSpan] else [];
    var mark: seq<Span> := if status == Completed then [CheckSpan] else if status == Active then [DotSpan] else [];
    var lab := [Span(Label, name, LabelStyle(status))];
    StepSpansParts(name, i, current);
    CountConcat(sep + mark, lab, x);
    CountConcat(sep, mark, x);
  }

  lemma {:induction false} RenderFromLabels(steps: seq<string>, current: nat, i: nat)
    requires i <= |steps|
    ensures Labels(RenderFrom(steps, current, i)) == steps[i..]
    ensures LabelStyles(RenderFrom(steps, current, i))
            == seq(|steps| - i, k requires 0 <= k < |steps| - i => LabelStyle(Classify(i + k, current)))
    decreases |steps| - i
  {
    if i < |steps| {
      RenderFromLabels(steps, current, i + 1);
      StepSpansViews(steps[i], i, current);
      LabelsConcat(StepSpans(steps[i], i, current), RenderFrom(steps, current, i + 1));
      StylesConcat(StepSpans(steps[i], i, current), RenderFrom(steps, current, i + 1));
      assert steps[i..] == [steps[i]] + steps[i + 1..];
      var styles := seq(|steps| - i, k requires 0 <= k < |steps| - i => LabelStyle(Classify(i + k, current)));
      var rest := seq(|steps| - (i + 1), k requires 0 <= k < |steps| - (i + 1) => LabelStyle(Classify(i + 1 + k, current)));
      assert styles == [LabelStyle(Classify(i, current))] + rest;
    }
  }

  lemma {:induction false} RenderFromCounts(steps: seq<string>, current: nat, i: nat)
    requires i <= |steps|
    ensures Count(RenderFrom(steps, current, i), SeparatorSpan)
            == (if i == |steps| then 0 else if i == 0 then |steps| - 1 else |steps| - i)
    ensures Count(RenderFrom(steps, current, i), DotSpan) == (if i <= current < |steps| then 1 else 0)
    ensures Count(RenderFrom(steps, current, i), CheckSpan) == (if current <= i then 0 else Min(current, |steps|) - i)
    decreases |steps| - i
  {
    if i < |steps| {
      RenderFromCounts(steps, current, i + 1);
      StepSpansViews(steps[i], i, current);
      CountConcat(StepSpans(steps[i], i, current), RenderFrom(steps, current, i + 1), SeparatorSpan);
      CountConcat(StepSpans(steps[i], i, current), RenderFrom(steps, current, i + 1), DotSpan);
      CountConcat(StepSpans(steps[i], i, current), RenderFrom(steps, current, i + 1), CheckSpan);
    }
  }

  // ---------------------------------------------------------------- properties

  /** Every label appears once, in order, each styled by its step's status. */
  lemma RenderShowsEveryLabel(steps: seq<string>, current: nat)
    ensures Labels(Render(steps, current)) == steps
    ensures LabelStyles(Render(steps, current))
            == seq(|steps|, k requires 0 <= k < |steps| => LabelStyle(Classify(k, current)))
  {
    RenderFromLabels(steps, current, 0);
    LabelsConcat([LeadSpan], RenderFrom(steps, current, 0));
    StylesConcat([LeadSpan], RenderFrom(steps, current, 0));
  }

  /** One separator between each pair of neighbouring steps; one in-progress
      marker exactly when `current` names a step; one check mark per step
      before `current`. */
  lemma RenderCounts(steps: seq<string>, current: nat)
    ensures Count(Render(steps, current), SeparatorSpan) == (if |steps| == 0 then 0 else |steps| - 1)
    ensures Count(Render(steps, current), DotSpan) == (if current < |steps| then 1 else 0)
    ensures Count(Render(steps, current), CheckSpan) == Min(current, |steps|)
  {
    RenderFromCounts(steps, current, 0);
    CountConcat([LeadSpan], RenderFrom(steps, current, 0), SeparatorSpan);
    CountConcat([LeadSpan], RenderFrom(steps, current, 0), DotSpan);
    CountConcat([LeadSpan], RenderFrom(steps, current, 0), CheckSpan);
  }
}
