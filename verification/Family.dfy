/** A family of metrics (family.cpp): which label sets it takes in, and that no two of its series
    are ever printed with the same head. */
module Families {
  import opened TextSerializer

  datatype AddError = InvalidLabelName | DuplicateLabelName

  datatype AddResult = Added(metric: nat) | Thrown(error: AddError)

  /** A label set: the pairs of a `std::map` in key order, so no name comes twice. */
  predicate IsLabelSet(labels: seq<Label>) {
    forall i, j :: 0 <= i < j < |labels| ==> labels[i].name != labels[j].name
  }

  predicate HasName(labels: seq<Label>, name: string) {
    exists i :: 0 <= i < |labels| && labels[i].name == name
  }

  /** What `Add` asks of each label. */
  predicate LabelOk(l: Label, kind: MetricType, constants: seq<Label>) {
    CheckLabelName(l.name, kind) && !HasName(constants, l.name)
  }

  predicate AllOk(labels: seq<Label>, kind: MetricType, constants: seq<Label>) {
    forall i :: 0 <= i < |labels| ==> LabelOk(labels[i], kind, constants)
  }

  class Family {
    const name: string
    const kind: MetricType
    const constants: seq<Label>
    var metrics: map<seq<Label>, nat>  // the metric objects by label set

    ghost predicate Valid()
      reads this
    {
      && CheckMetricName(name) && IsLabelSet(constants)
      && (forall i :: 0 <= i < |constants| ==> CheckLabelName(constants[i].name, kind))
      && forall labels :: labels in metrics ==> IsLabelSet(labels) && AllOk(labels, kind, constants)
    }

    constructor Make(name: string, kind: MetricType, constants: seq<Label>)
      requires CheckMetricName(name) && IsLabelSet(constants)
      requires forall i :: 0 <= i < |constants| ==> CheckLabelName(constants[i].name, kind)
      ensures Valid() && metrics == map[] && this.name == name && this.kind == kind && this.constants == constants
    {
      this.name, this.kind, this.constants, metrics := name, kind, constants, map[];
    }

    /** The C++ constructor: it throws, here gives null, on a bad metric or label name. */
    static method New(name: string, kind: MetricType, constants: seq<Label>) returns (family: Family?)
      requires IsLabelSet(constants)
      ensures family == null <==>
        !CheckMetricName(name) || exists i :: 0 <= i < |constants| && !CheckLabelName(constants[i].name, kind)
      ensures family != null ==> family.Valid() && family.metrics == map[] && fresh(family)
    {
      family := null;
      if !CheckMetricName(name) {
        return;
      }
      var i := 0;
      while i < |constants|
        invariant 0 <= i <= |constants| && family == null
        invariant forall j :: 0 <= j < i ==> CheckLabelName(constants[j].name, kind)
      {
        if !CheckLabelName(constants[i].name, kind) {
          return;
        }
        i := i + 1;
      }
      family := new Family.Make(name, kind, constants);
    }

    /** Adds a metric object under a label set, or finds the one that is there. A set with a bad
        label is put in first and taken out again, so a throw leaves the family as it was. */
    method Add(labels: seq<Label>, metric: nat) returns (result: AddResult)
      requires Valid() && IsLabelSet(labels)
      modifies this
      ensures Valid()
      ensures labels in old(metrics) ==> result == Added(old(metrics)[labels]) && metrics == old(metrics)
      ensures labels !in old(metrics) && AllOk(labels, kind, constants) ==>
                result == Added(metric) && metrics == old(metrics)[labels := metric]
      ensures labels !in old(metrics) && !AllOk(labels, kind, constants) ==> result.Thrown? && metrics == old(metrics)
      ensures result.Thrown? ==>
        exists i :: 0 <= i < |labels| && (forall j :: 0 <= j < i ==> LabelOk(labels[j], kind, constants)) &&
                    !LabelOk(labels[i], kind, constants) &&
                    (result.error == InvalidLabelName <==> !CheckLabelName(labels[i].name, kind))
    {
      if labels in metrics {
        return Added(metrics[labels]);
      }
      ghost var before := metrics;
      metrics := metrics[labels := metric];
      var i := 0;
      while i < |labels|
        invariant 0 <= i <= |labels| && metrics == before[labels := metric]
        invariant forall j :: 0 <= j < i ==> LabelOk(labels[j], kind, constants)
      {
        if !CheckLabelName(labels[i].name, kind) {
          metrics := metrics - {labels};
          assert metrics == before;
          return Thrown(InvalidLabelName);
        }
        if HasName(constants, labels[i].name) {
          metrics := metrics - {labels};
          assert metrics == before;
          return Thrown(DuplicateLabelName);
        }
        i := i + 1;
      }
      return Added(metrics[labels]);
    }

    /** The labels of a metric as they are printed. */
    method CollectLabels(labels: seq<Label>) returns (collected: seq<Label>)
      ensures collected == constants + labels
    {
      collected := [];
      var i := 0;
      while i < |constants|
        invariant 0 <= i <= |constants| && collected == constants[..i]
      {
        collected := collected + [constants[i]];
        i := i + 1;
      }
      i := 0;
      while i < |labels|
        invariant 0 <= i <= |labels| && collected == constants + labels[..i]
      {
        collected := collected + [labels[i]];
        i := i + 1;
      }
      assert labels[..i] == labels;
    }
  }

  /** A line of a metric: its suffix and extra label, by the kind of metric. */
  datatype Line = Line(suffix: string, extra: Label)

  const NO_LABEL := Label("", "")

  /** The lines `SerializeCounter` and its siblings print. */
  predicate IsLine(kind: MetricType, line: Line) {
    match kind
    case Histogram =>
      line == Line("_count", NO_LABEL) || line == Line("_sum", NO_LABEL) || (line.suffix == "_bucket" && line.extra.name == "le")
    case Summary =>
      line == Line("_count", NO_LABEL) || line == Line("_sum", NO_LABEL) || (line.suffix == "" && line.extra.name == "quantile")
    case Info => line == Line("_info", NO_LABEL)
    case _ => line == Line("", NO_LABEL)
  }

  /** The head of one line of the metric under `labels`. */
  function HeadOf(name: string, constants: seq<Label>, labels: seq<Label>, line: Line): string {
    Head(name + line.suffix, AllLabels(constants + labels, line.extra))
  }

  lemma NamesAreNameChars(family: Family, labels: seq<Label>, line: Line)
    requires family.Valid() && labels in family.metrics && IsLine(family.kind, line)
    ensures AllNameChars(family.name + line.suffix)
    ensures var all := AllLabels(family.constants + labels, line.extra);
      forall i :: 0 <= i < |all| ==> AllNameChars(all[i].name)
  {
    var all := AllLabels(family.constants + labels, line.extra);
    forall i | 0 <= i < |all| ensures AllNameChars(all[i].name) {
      var n := |family.constants|;
      if n <= i < n + |labels| {
        assert LabelOk(labels[i - n], family.kind, family.constants);
      }
    }
  }

  /** In every state of a family, two lines with the same head, or of which one head starts the
      other, have the same label set, the same suffix, and the same extra label as printed. */
  lemma SeriesAreDistinct(family: Family, labels: seq<Label>, line: Line, labels': seq<Label>, line': Line)
    requires family.Valid() && labels in family.metrics && labels' in family.metrics
    requires IsLine(family.kind, line) && IsLine(family.kind, line')
    requires HeadOf(family.name, family.constants, labels, line) <= HeadOf(family.name, family.constants, labels', line')
    ensures labels == labels' && line == line'
  {
    NamesAreNameChars(family, labels, line);
    NamesAreNameChars(family, labels', line');
    hide AllLabels, AllNameChars, Head;
    HeadsAreDistinct(family.name + line.suffix, AllLabels(family.constants + labels, line.extra),
                     family.name + line'.suffix, AllLabels(family.constants + labels', line'.extra));
    assert line.suffix == (family.name + line.suffix)[|family.name|..] == line'.suffix;
    LabelsAreDistinct(family.constants, labels, line.extra, labels', line'.extra);
  }

  lemma LabelsAreDistinct(constants: seq<Label>, labels: seq<Label>, extra: Label, labels': seq<Label>, extra': Label)
    requires AllLabels(constants + labels, extra) == AllLabels(constants + labels', extra')
    requires extra.name == "" <==> extra'.name == ""
    ensures labels == labels' && (extra.name != "" ==> extra == extra')
  {
    var n := |constants|;
    var all, all' := AllLabels(constants + labels, extra), AllLabels(constants + labels', extra');
    if extra.name == "" {
      assert labels == all[n..] && labels' == all'[n..];
    } else {
      assert labels == all[n..|all| - 1] && labels' == all'[n..|all'| - 1];
      assert extra == all[|all| - 1] && extra' == all'[|all'| - 1];
    }
  }

  // ---- Lines that carry a number ----

  /** A bucket boundary; the last bucket has none. */
  datatype Bound = Finite(value: real) | Infinite

  /** The text of a boundary, where `show` is how the stream prints a finite number. */
  function BoundText(show: real -> string, b: Bound): string {
    if b.Infinite? then "+Inf" else show(b.value)
  }

  function BucketLine(show: real -> string, b: Bound): Line {
    Line("_bucket", Label("le", BoundText(show, b)))
  }

  function QuantileLine(show: real -> string, quantile: real): Line {
    Line("", Label("quantile", show(quantile)))
  }

  /** Two bucket lines of a histogram family share a head exactly if they are of one label set and
      their boundaries print the same. */
  lemma BucketsShareHead(family: Family, show: real -> string, labels: seq<Label>, b: Bound, labels': seq<Label>, b': Bound)
    requires family.Valid() && family.kind == Histogram && labels in family.metrics && labels' in family.metrics
    ensures HeadOf(family.name, family.constants, labels, BucketLine(show, b))
         == HeadOf(family.name, family.constants, labels', BucketLine(show, b'))
       <==> labels == labels' && BoundText(show, b) == BoundText(show, b')
  {
    var line, line' := BucketLine(show, b), BucketLine(show, b');
    hide HeadOf;
    if HeadOf(family.name, family.constants, labels, line) == HeadOf(family.name, family.constants, labels', line') {
      SeriesAreDistinct(family, labels, line, labels', line');
    }
  }

  lemma QuantilesShareHead(family: Family, show: real -> string, labels: seq<Label>, q: real, labels': seq<Label>, q': real)
    requires family.Valid() && family.kind == Summary && labels in family.metrics && labels' in family.metrics
    ensures HeadOf(family.name, family.constants, labels, QuantileLine(show, q))
         == HeadOf(family.name, family.constants, labels', QuantileLine(show, q'))
       <==> labels == labels' && show(q) == show(q')
  {
    var line, line' := QuantileLine(show, q), QuantileLine(show, q');
    hide HeadOf;
    if HeadOf(family.name, family.constants, labels, line) == HeadOf(family.name, family.constants, labels', line') {
      SeriesAreDistinct(family, labels, line, labels', line');
    }
  }

  /** The boundaries of a collected histogram, the infinite one last. */
  function Bounds(boundaries: seq<real>): (bounds: seq<Bound>)
    ensures |bounds| == |boundaries| + 1
  {
    seq(|boundaries|, i requires 0 <= i < |boundaries| => Finite(boundaries[i])) + [Infinite]
  }

  predicate ShareHead(family: Family, show: real -> string, labels: seq<Label>, b: Bound, b': Bound) {
    HeadOf(family.name, family.constants, labels, BucketLine(show, b))
    == HeadOf(family.name, family.constants, labels, BucketLine(show, b'))
  }

  /** The buckets of one histogram all have heads of their own exactly if no two of its boundaries
      print the same, and none prints like infinity. */
  lemma BucketsAreDistinctExactly(family: Family, show: real -> string, labels: seq<Label>, boundaries: seq<real>)
    requires family.Valid() && family.kind == Histogram && labels in family.metrics
    ensures var bounds := Bounds(boundaries);
      (forall i, j :: 0 <= i < j < |bounds| ==> !ShareHead(family, show, labels, bounds[i], bounds[j]))
      <==>
      && (forall i, j :: 0 <= i < j < |boundaries| ==> show(boundaries[i]) != show(boundaries[j]))
      && (forall i :: 0 <= i < |boundaries| ==> show(boundaries[i]) != "+Inf")
  {
    hide ShareHead, CheckMetricName, IsLabelSet, CheckLabelName, AllOk;
    ShareHeadExactly(family, show, labels);
    var bounds := Bounds(boundaries);
    if forall i, j :: 0 <= i < j < |bounds| ==> !ShareHead(family, show, labels, bounds[i], bounds[j]) {
      forall i | 0 <= i < |boundaries| ensures show(boundaries[i]) != "+Inf" {
        assert !ShareHead(family, show, labels, bounds[i], bounds[|boundaries|]);
      }
      forall i, j | 0 <= i < j < |boundaries| ensures show(boundaries[i]) != show(boundaries[j]) {
        assert !ShareHead(family, show, labels, bounds[i], bounds[j]);
      }
    }
  }

  lemma ShareHeadExactly(family: Family, show: real -> string, labels: seq<Label>)
    requires family.Valid() && family.kind == Histogram && labels in family.metrics
    ensures forall b, b' :: ShareHead(family, show, labels, b, b') <==> BoundText(show, b) == BoundText(show, b')
  {
    hide HeadOf;
    forall b, b' ensures ShareHead(family, show, labels, b, b') <==> BoundText(show, b) == BoundText(show, b') {
      BucketsShareHead(family, show, labels, b, labels, b');
    }
  }

  /** A number from a tenth up to one, rounded to the 16 significant digits the stream is set to. */
  function Digits16(v: real): int {
    (v * 10000000000000000.0 + 0.5).Floor
  }

  ghost predicate PrintsSixteenDigits(show: real -> string) {
    forall v, w :: 0.1 <= v < 1.0 && 0.1 <= w < 1.0 && Digits16(v) == Digits16(w) ==> show(v) == show(w)
  }

  /** Sixteen digits do not tell all doubles apart: the one nearest to a tenth and the next one above
      it, as boundaries of one histogram, give two buckets with one head. */
  lemma CloseBucketsShareHead(family: Family, show: real -> string, labels: seq<Label>) returns (b: real, b': real)
    requires family.Valid() && family.kind == Histogram && labels in family.metrics && PrintsSixteenDigits(show)
    ensures 0.1 < b < b' && b == 7205759403792794.0 / 72057594037927936.0 && b' == 7205759403792795.0 / 72057594037927936.0
    ensures ShareHead(family, show, labels, Finite(b), Finite(b'))
  {
    b, b' := 7205759403792794.0 / 72057594037927936.0, 7205759403792795.0 / 72057594037927936.0;
    assert Digits16(b) == 1000000000000000 == Digits16(b');
    BucketsShareHead(family, show, labels, Finite(b), labels, Finite(b'));
  }

  /** No line names a label twice: neither a constant label nor `le` or `quantile` comes again. */
  lemma NoLabelTwice(family: Family, labels: seq<Label>, line: Line)
    requires family.Valid() && labels in family.metrics && IsLine(family.kind, line)
    ensures IsLabelSet(AllLabels(family.constants + labels, line.extra))
  {
    var all := AllLabels(family.constants + labels, line.extra);
    var n := |family.constants|;
    forall i, j | 0 <= i < j < |all| ensures all[i].name != all[j].name {
      if n <= i < n + |labels| {
        assert LabelOk(labels[i - n], family.kind, family.constants);
      }
      if n <= j < n + |labels| {
        assert LabelOk(labels[j - n], family.kind, family.constants);
        assert i < n ==> family.constants[i].name != labels[j - n].name;
      }
    }
  }
}
