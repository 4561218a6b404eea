/** The names of Prometheus series: which are accepted (check_names.cpp), how a sample's head is
    printed (text_serializer.cpp), and a parser that undoes the printing. */
module TextSerializer {
  import opened Options
  import opened Seqs

  datatype MetricType = Counter | Gauge | Summary | Untyped | Histogram | Info

  datatype Label = Label(name: string, value: string)

  // ---- Accepted names ----

  predicate IsDigit(c: char) {
    '0' <= c <= '9'
  }

  predicate IsLabelChar(c: char) {
    IsDigit(c) || 'a' <= c <= 'z' || 'A' <= c <= 'Z' || c == '_'
  }

  predicate IsNameChar(c: char) {
    IsLabelChar(c) || c == ':'
  }

  predicate NameStartsValid(name: string) {
    name != "" && !IsDigit(name[0]) && !("__" <= name)
  }

  predicate CheckMetricName(name: string) {
    NameStartsValid(name) && forall i :: 0 <= i < |name| ==> IsNameChar(name[i])
  }

  predicate CheckLabelName(name: string, kind: MetricType) {
    && NameStartsValid(name)
    && !(kind == Histogram && name == "le") && !(kind == Summary && name == "quantile")
    && forall i :: 0 <= i < |name| ==> IsLabelChar(name[i])
  }

  predicate AllNameChars(s: string) {
    forall i :: 0 <= i < |s| ==> IsNameChar(s[i])
  }

  predicate IsLetter(c: char) {
    'a' <= c <= 'z' || 'A' <= c <= 'Z'
  }

  /** The expressions of the documentation: `[a-zA-Z_:][a-zA-Z0-9_:]*`, and without the colon for
      labels. `started` says that the first character is behind. */
  predicate Matches(s: string, colon: bool, started: bool) {
    if s == "" then started
    else
      && (IsLetter(s[0]) || s[0] == '_' || (colon && s[0] == ':') || (started && IsDigit(s[0])))
      && Matches(s[1..], colon, true)
  }

  lemma {:induction false} MatchesTail(s: string, colon: bool)
    ensures Matches(s, colon, true) <==> forall i :: 0 <= i < |s| ==> IsLabelChar(s[i]) || (colon && s[i] == ':')
  {
    if s != "" {
      MatchesTail(s[1..], colon);
      assert forall i :: 0 < i < |s| ==> s[i] == s[1..][i - 1];
      assert forall i :: 0 <= i < |s[1..]| ==> s[1..][i] == s[i + 1];
    }
  }

  /** The names accepted are those of the documented expressions, except those that begin with two
      underscores; a label of a histogram is also not `le`, one of a summary not `quantile`. */
  lemma NamesMatchExactly(name: string, kind: MetricType)
    ensures CheckMetricName(name) <==> Matches(name, true, false) && !("__" <= name)
    ensures CheckLabelName(name, kind) <==>
      Matches(name, false, false) && !("__" <= name) && (kind, name) !in {(Histogram, "le"), (Summary, "quantile")}
  {
    if name != "" {
      MatchesTail(name[1..], true);
      MatchesTail(name[1..], false);
      assert forall i :: 0 < i < |name| ==> name[i] == name[1..][i - 1];
      assert forall i :: 0 <= i < |name[1..]| ==> name[1..][i] == name[i + 1];
    }
  }

  // ---- Printing ----

  function EscapeChar(c: char): string {
    if c == '\n' then "\\n" else if c == '\\' || c == '"' then ['\\', c] else [c]
  }

  function Escape(value: string): string {
    if value == "" then "" else EscapeChar(value[0]) + Escape(value[1..])
  }

  function LabelText(l: Label): string {
    l.name + "=\"" + Escape(l.value) + "\""
  }

  function LabelList(labels: seq<Label>): string {
    if |labels| == 0 then ""
    else if |labels| == 1 then LabelText(labels[0])
    else LabelText(labels[0]) + "," + LabelList(labels[1..])
  }

  /** The head of a sample line: the name with its suffix and all labels. */
  function Head(name: string, labels: seq<Label>): string {
    name + (if |labels| == 0 then "" else "{" + LabelList(labels) + "}") + " "
  }

  /** The labels of a line: those of the metric and then the extra one, which an empty name means
      there is not. */
  function AllLabels(labels: seq<Label>, extra: Label): seq<Label> {
    if extra.name == "" then labels else labels + [extra]
  }

  lemma ExtraComesLast(labels: seq<Label>, extra: Label)
    ensures var all := AllLabels(labels, extra);
      && all[..|labels|] == labels
      && if extra.name == "" then |all| == |labels| else |all| == |labels| + 1 && all[|labels|] == extra
  {
  }

  class OutStream {
    var text: string

    constructor ()
      ensures text == ""
    {
      text := "";
    }

    method Put(s: string)
      modifies this
      ensures text == old(text) + s
    {
      text := text + s;
    }
  }

  /** A value without newline, backslash and quote is printed as it is. */
  lemma {:induction false} PlainIsPrintedAsIs(value: string)
    requires forall i :: 0 <= i < |value| ==> value[i] != '\n' && value[i] != '\\' && value[i] != '"'
    ensures Escape(value) == value
    decreases |value|
  {
    if value != "" {
      PlainIsPrintedAsIs(value[1..]);
      assert [value[0]] + value[1..] == value;
    }
  }

  method WriteValue(out: OutStream, value: string)
    modifies out
    ensures out.text == old(out.text) + Escape(value)
  {
    var i := 0;
    while i < |value|
      invariant 0 <= i <= |value|
      invariant old(out.text) + Escape(value) == out.text + Escape(value[i..])
    {
      EscapeNext(value, i);
      Associate(out.text, EscapeChar(value[i]), Escape(value[i + 1..]));
      match value[i] {
        case '\n' => out.Put("\\n");
        case '\\' => out.Put(['\\', value[i]]);
        case '"' => out.Put(['\\', value[i]]);
        case _ => out.Put([value[i]]);
      }
      i := i + 1;
    }
    assert value[i..] == "";
  }

  lemma EscapeNext(value: string, i: nat)
    requires i < |value|
    ensures Escape(value[i..]) == EscapeChar(value[i]) + Escape(value[i + 1..])
  {
    assert value[i..][1..] == value[i + 1..];
  }

  /** Labels printed so far and the one to come: the separator comes before it unless it is first. */
  lemma {:induction false} LabelListSnoc(labels: seq<Label>, l: Label)
    ensures LabelList(labels + [l]) == LabelList(labels) + (if |labels| == 0 then "" else ",") + LabelText(l)
    decreases |labels|
  {
    if |labels| == 0 {
      assert labels + [l] == [l];
    } else {
      assert (labels + [l])[0] == labels[0] && (labels + [l])[1..] == labels[1..] + [l];
      LabelListSnoc(labels[1..], l);
      hide LabelText;
      if |labels| == 1 {
        assert labels[1..] == [];
      }
    }
  }

  method WriteLabel(out: OutStream, prefix: string, l: Label)
    modifies out
    ensures out.text == old(out.text) + prefix + LabelText(l)
  {
    out.Put(prefix);
    out.Put(l.name);
    out.Put("=\"");
    WriteValue(out, l.value);
    out.Put("\"");
  }

  method WriteHead(out: OutStream, name: string, labels: seq<Label>, suffix: string, extra: Label)
    modifies out
    ensures out.text == old(out.text) + Head(name + suffix, AllLabels(labels, extra))
  {
    hide LabelList, LabelText, Head, AllLabels;
    HeadOf(out.text, name + suffix, labels, extra);
    out.Put(name + suffix);
    if |labels| > 0 || extra.name != "" {
      out.Put("{");
      ghost var start := out.text;
      var prefix := "";
      var i := 0;
      LabelListNone();
      while i < |labels|
        invariant 0 <= i <= |labels|
        invariant prefix == if i == 0 then "" else ","
        invariant out.text == start + LabelList(labels[..i])
      {
        LabelListSnoc(labels[..i], labels[i]);
        assert labels[..i + 1] == labels[..i] + [labels[i]];
        Associate(start, LabelList(labels[..i]), prefix);
        Associate(start, LabelList(labels[..i]) + prefix, LabelText(labels[i]));
        WriteLabel(out, prefix, labels[i]);
        prefix := ",";
        i := i + 1;
      }
      assert labels[..i] == labels;
      if extra.name != "" {
        LabelListSnoc(labels, extra);
        Associate(start, LabelList(labels), prefix);
        Associate(start, LabelList(labels) + prefix, LabelText(extra));
        WriteLabel(out, prefix, extra);
      }
      out.Put("}");
    }
    out.Put(" ");
  }

  lemma LabelListNone()
    ensures LabelList([]) == ""
  {
  }

  lemma HeadOf(before: string, name: string, labels: seq<Label>, extra: Label)
    ensures |labels| == 0 && extra.name == "" ==> before + Head(name, AllLabels(labels, extra)) == before + name + " "
    ensures |labels| > 0 || extra.name != "" ==>
      before + Head(name, AllLabels(labels, extra)) == before + name + "{" + LabelList(AllLabels(labels, extra)) + "}" + " "
    ensures AllLabels(labels, extra) == if extra.name == "" then labels else labels + [extra]
  {
    hide LabelList;
  }

  // ---- Parsing ----

  /** The name characters at the head of `s`, and what comes after them. */
  function TakeName(s: string): (string, string) {
    if s == "" || !IsNameChar(s[0]) then ("", s)
    else
      var (name, rest) := TakeName(s[1..]);
      ([s[0]] + name, rest)
  }

  /** An escaped value up to its closing quote, and what comes after that. */
  function ParseValue(s: string): Option<(string, string)> {
    if s == "" then None
    else if s[0] == '"' then Some(("", s[1..]))
    else if s[0] == '\\' then
      if |s| < 2 then None
      else match ParseValue(s[2..])
        case None => None
        case Some((v, rest)) => Some(([if s[1] == 'n' then '\n' else s[1]] + v, rest))
    else match ParseValue(s[1..])
      case None => None
      case Some((v, rest)) => Some(([s[0]] + v, rest))
  }

  function ParseLabel(s: string): Option<(Label, string)> {
    var (name, rest) := TakeName(s);
    if !("=\"" <= rest) then None
    else match ParseValue(rest[2..])
      case None => None
      case Some((value, rest')) => Some((Label(name, value), rest'))
  }

  /** Labels up to the closing brace. The fuel is the length of the text. */
  function ParseLabels(s: string, fuel: nat): Option<(seq<Label>, string)>
    decreases fuel
  {
    if fuel == 0 then None
    else match ParseLabel(s)
      case None => None
      case Some((l, rest)) =>
        if rest == "" then None
        else if rest[0] == '}' then Some(([l], rest[1..]))
        else if rest[0] != ',' then None
        else match ParseLabels(rest[1..], fuel - 1)
          case None => None
          case Some((ls, rest')) => Some(([l] + ls, rest'))
  }

  function ParseHead(s: string): Option<(string, seq<Label>, string)> {
    var (name, rest) := TakeName(s);
    if rest == "" then None
    else if rest[0] == ' ' then Some((name, [], rest[1..]))
    else if rest[0] != '{' then None
    else match ParseLabels(rest[1..], |rest|)
      case None => None
      case Some((labels, rest')) => if " " <= rest' then Some((name, labels, rest'[1..])) else None
  }

  lemma {:induction false} TakeNameOf(name: string, rest: string)
    requires AllNameChars(name) && (rest == "" || !IsNameChar(rest[0]))
    ensures TakeName(name + rest) == (name, rest)
    decreases |name|
  {
    if name == "" {
      assert name + rest == rest;
    } else {
      assert (name + rest)[1..] == name[1..] + rest && [name[0]] + name[1..] == name;
      TakeNameOf(name[1..], rest);
    }
  }

  lemma {:induction false} ParseValueOf(value: string, rest: string)
    ensures ParseValue(Escape(value) + "\"" + rest) == Some((value, rest))
    decreases |value|
  {
    if value == "" {
      assert Escape(value) + "\"" + rest == "\"" + rest;
    } else {
      var tail := Escape(value[1..]) + "\"" + rest;
      ParseValueOf(value[1..], rest);
      var e := EscapeChar(value[0]);
      assert Escape(value) + "\"" + rest == e + tail;
      assert (e + tail)[|e|..] == tail && [value[0]] + value[1..] == value;
    }
  }

  lemma ParseLabelOf(l: Label, rest: string)
    requires AllNameChars(l.name)
    ensures ParseLabel(LabelText(l) + rest) == Some((l, rest))
  {
    hide TakeName, ParseValue, Escape;
    var after := "=\"" + Escape(l.value) + "\"" + rest;
    assert LabelText(l) + rest == l.name + after;
    TakeNameOf(l.name, after);
    assert after[2..] == Escape(l.value) + "\"" + rest;
    ParseValueOf(l.value, rest);
  }

  lemma {:induction false} ParseLabelsOf(labels: seq<Label>, rest: string, fuel: nat)
    requires |labels| > 0 && |labels| <= fuel
    requires forall i :: 0 <= i < |labels| ==> AllNameChars(labels[i].name)
    ensures ParseLabels(LabelList(labels) + "}" + rest, fuel) == Some((labels, rest))
    decreases |labels|
  {
    hide ParseLabel, LabelText;
    var l := labels[0];
    if |labels| == 1 {
      var after := "}" + rest;
      assert LabelList(labels) + "}" + rest == LabelText(l) + after && labels == [l];
      ParseLabelOf(l, after);
      assert after[1..] == rest;
    } else {
      assert labels == [l] + labels[1..];
      var more := LabelList(labels[1..]) + "}" + rest;
      assert LabelList(labels) + "}" + rest == LabelText(l) + ("," + more);
      ParseLabelOf(l, "," + more);
      assert ("," + more)[1..] == more;
      ParseLabelsOf(labels[1..], rest, fuel - 1);
    }
  }

  lemma {:induction false} LabelListIsLong(labels: seq<Label>)
    ensures |LabelList(labels)| >= |labels|
    decreases |labels|
  {
    if |labels| > 1 {
      LabelListIsLong(labels[1..]);
    }
  }

  /** The parser recovers the name and every label, whatever characters the values hold. */
  lemma HeadParses(name: string, labels: seq<Label>, rest: string)
    requires AllNameChars(name) && forall i :: 0 <= i < |labels| ==> AllNameChars(labels[i].name)
    ensures ParseHead(Head(name, labels) + rest) == Some((name, labels, rest))
  {
    hide TakeName, ParseLabels, LabelList;
    if |labels| == 0 {
      var after := " " + rest;
      assert Head(name, labels) + rest == name + after;
      TakeNameOf(name, after);
      assert after[1..] == rest;
    } else {
      var tail := LabelList(labels) + "}" + (" " + rest);
      var after := "{" + tail;
      assert Head(name, labels) + rest == name + after;
      TakeNameOf(name, after);
      assert after[1..] == tail;
      LabelListIsLong(labels);
      ParseLabelsOf(labels, " " + rest, |after|);
      assert (" " + rest)[1..] == rest;
    }
  }

  /** Two heads that agree, or of which one starts the other, are of the same series. */
  lemma HeadsAreDistinct(name: string, labels: seq<Label>, name': string, labels': seq<Label>)
    requires AllNameChars(name) && forall i :: 0 <= i < |labels| ==> AllNameChars(labels[i].name)
    requires AllNameChars(name') && forall i :: 0 <= i < |labels'| ==> AllNameChars(labels'[i].name)
    requires Head(name, labels) <= Head(name', labels')
    ensures name == name' && labels == labels'
  {
    hide Head;
    var h, h' := Head(name, labels), Head(name', labels');
    HeadParses(name, labels, h'[|h|..]);
    assert h' == h + h'[|h|..];
    HeadParses(name', labels', "");
    assert h' + "" == h';
  }
}
