/**
  The identity of a metric: a name plus an optional, ordered sequence of
  labels.  Both `Key` and `Label` are immutable values; equality is the
  structural equality of the datatypes, so it is sensitive to the order of
  the labels and tells "no labels" apart from "an empty label list".
  A `ScopedString` (a static or owned string) is simply a `string` here.
*/
module Keys {
  import opened Wrappers

  /** A key/value pair further describing a metric. */
  datatype Label = Label(key: string, value: string)

  /** A metric key: a name and, possibly, labels. */
  datatype Key = Key(name: string, labels: Option<seq<Label>>)

  // ---------------------------------------------------------------- Label

  /** `Label::new`. */
  function NewLabel(key: string, value: string): (l: Label)
    ensures LabelKey(l) == key && LabelValue(l) == value
    ensures LabelIntoParts(l) == (key, value)
  {
    Label(key, value)
  }

  /** `Label::key`: with the value, it rebuilds the label. */
  function LabelKey(l: Label): (r: string)
    ensures Label(r, LabelValue(l)) == l
  {
    l.key
  }

  /** `Label::value`: with the key, it rebuilds the label. */
  function LabelValue(l: Label): (r: string)
    ensures Label(l.key, r) == l
  {
    l.value
  }

  /** `Label::into_parts`: the two parts rebuild the label. */
  function LabelIntoParts(l: Label): (r: (string, string))
    ensures Label(r.0, r.1) == l
  {
    (l.key, l.value)
  }

  /** Taking a label apart and building it again gives the same label. */
  lemma LabelPartsRoundTrip(l: Label)
    ensures NewLabel(LabelIntoParts(l).0, LabelIntoParts(l).1) == l
    ensures LabelIntoParts(l) == (LabelKey(l), LabelValue(l))
  {
  }

  // ---------------------------------------------------------- IntoLabels

  /** `IntoLabels` for a vector of labels: the vector itself. */
  function IntoLabels(labels: seq<Label>): (r: seq<Label>)
    ensures r == labels
  {
    labels
  }

  /**
    `IntoLabels` for a borrowed collection of key/value pairs: every pair
    becomes a label, in order.
  */
  function LabelsFromPairs(pairs: seq<(string, string)>): (r: seq<Label>)
    ensures |r| == |pairs|
    ensures forall i :: 0 <= i < |pairs| ==> LabelIntoParts(r[i]) == pairs[i]
  {
    if pairs == [] then []
    else [NewLabel(pairs[0].0, pairs[0].1)] + LabelsFromPairs(pairs[1..])
  }

  // ---------------------------------------------------------------- Key

  /** `Key::from_name`: a key with a name and no labels at all. */
  function FromName(name: string): (k: Key)
    ensures Name(k) == name
    ensures k.labels == None && Labels(k) == []
  {
    Key(name, None)
  }

  /** `Key::from_name_and_labels`: the labels are kept in the given order. */
  function FromNameAndLabels(name: string, labels: seq<Label>): (k: Key)
    ensures Name(k) == name
    ensures k.labels == Some(labels) && Labels(k) == labels
  {
    Key(name, Some(IntoLabels(labels)))
  }

  /**
    `Key::add_labels`: new labels are appended after the existing ones;
    a key without labels is first given an empty label list.
  */
  function AddLabels(k: Key, newLabels: seq<Label>): (r: Key)
    ensures Name(r) == Name(k)
    ensures r.labels.Some?
    ensures Labels(r) == Labels(k) + newLabels
    ensures Labels(k) <= Labels(r)
  {
    var existing := match k.labels
      case Some(ls) => ls
      case None => [];
    Key(k.name, Some(existing + IntoLabels(newLabels)))
  }

  /** `Key::name`: with the key's labels, it rebuilds the key. */
  function Name(k: Key): (r: string)
    ensures Key(r, k.labels) == k
  {
    k.name
  }

  /** `Key::labels`: the labels, or nothing when there are none. */
  function Labels(k: Key): (r: seq<Label>)
    ensures k.labels.None? ==> r == []
    ensures k.labels.Some? ==> Key(k.name, Some(r)) == k
  {
    match k.labels
    case Some(ls) => ls
    case None => []
  }

  /** `Key::map_name`: only the name changes. */
  function MapName(k: Key, f: string -> string): (r: Key)
    ensures Name(r) == f(Name(k))
    ensures r.labels == k.labels
  {
    Key(f(k.name), k.labels)
  }

  /** `Key::into_parts`: the two parts rebuild the key. */
  function IntoParts(k: Key): (r: (string, Option<seq<Label>>))
    ensures Key(r.0, r.1) == k
  {
    (k.name, k.labels)
  }

  /** Both constructors are undone by `IntoParts`. */
  lemma IntoPartsRoundTrip(name: string, labels: seq<Label>)
    ensures IntoParts(FromName(name)) == (name, None)
    ensures IntoParts(FromNameAndLabels(name, labels)) == (name, Some(labels))
  {
  }

  /** Every key is rebuilt from its parts by one of the constructors. */
  lemma PartsRebuildKey(k: Key)
    ensures var (n, ls) := IntoParts(k);
      k == match ls
        case None => FromName(n)
        case Some(l) => FromNameAndLabels(n, l)
  {
  }

  /** Equality of keys is equality of the name and of the ordered labels. */
  lemma KeyEquality(a: Key, b: Key)
    ensures a == b <==> IntoParts(a) == IntoParts(b)
  {
  }

  /** Labels that differ only in their order give different keys. */
  lemma LabelOrderMatters(name: string, x: Label, y: Label)
    requires x != y
    ensures FromNameAndLabels(name, [x, y]) != FromNameAndLabels(name, [y, x])
  {
  }

  /** A key without labels differs from one with an empty label list. */
  lemma NoLabelsIsNotEmptyLabels(name: string)
    ensures Labels(FromName(name)) == Labels(FromNameAndLabels(name, []))
    ensures FromName(name) != FromNameAndLabels(name, [])
  {
  }

  // ------------------------------------------------------------- Display

  /** One label as shown by `Display`: the key, ` = `, then the value. */
  function LabelToString(l: Label): (r: string)
    ensures |r| == |l.key| + 3 + |l.value|
  {
    l.key + " = " + l.value
  }

  /** The shown label is the key, then ` = `, then the value, and nothing else. */
  lemma LabelToStringParts(l: Label)
    ensures var r := LabelToString(l);
      && r[..|l.key|] == l.key
      && r[|l.key|..|l.key| + 3] == " = "
      && r[|l.key| + 3..] == l.value
  {
  }

  /** The label strings of a sequence of labels, in order. */
  function LabelStrings(ls: seq<Label>): (r: seq<string>)
    ensures |r| == |ls|
    ensures forall i :: 0 <= i < |ls| ==> r[i] == LabelToString(ls[i])
  {
    if ls == [] then [] else [LabelToString(ls[0])] + LabelStrings(ls[1..])
  }

  /** The parts separated by `sep`, as `join` does. */
  function Join(parts: seq<string>, sep: string): (r: string)
    ensures parts == [] ==> r == ""
    ensures |parts| == 1 ==> r == parts[0]
  {
    if |parts| == 0 then ""
    else if |parts| == 1 then parts[0]
    else parts[0] + sep + Join(parts[1..], sep)
  }

  /**
    Joined text starts with the first part, followed by the separator when
    there are several parts, and ends with the last part.
  */
  lemma {:induction false} JoinShape(parts: seq<string>, sep: string)
    requires parts != []
    ensures var r, first, last := Join(parts, sep), parts[0], parts[|parts| - 1];
      && |first| <= |r| && r[..|first|] == first
      && (|parts| > 1 ==> |first| + |sep| <= |r| && r[|first|..|first| + |sep|] == sep)
      && |last| <= |r| && r[|r| - |last|..] == last
  {
    if |parts| > 1 {
      JoinShape(parts[1..], sep);
      var rest := Join(parts[1..], sep);
      assert Join(parts, sep) == parts[0] + sep + rest;
      assert parts[1..][|parts[1..]| - 1] == parts[|parts| - 1];
    }
  }

  /**
    `Display` for `Key`: `Key(<name>)` without labels, otherwise
    `Key(<name>, [k1 = v1, k2 = v2])` with the labels in order.
  */
  function Display(k: Key): (r: string)
    ensures |r| >= |k.name| + 5
    ensures r[..4 + |k.name|] == "Key(" + k.name
    ensures r[|r| - 1] == ')'
    ensures k.labels.None? <==> r == "Key(" + k.name + ")"
  {
    match k.labels
    case None => "Key(" + k.name + ")"
    case Some(ls) =>
      var s := "Key(" + k.name + ", [" + Join(LabelStrings(ls), ", ") + "])";
      assert s[|s| - 1] == ')';
      assert s[4 + |k.name|] == ',';
      s
  }

  /** Joining two non-empty lists puts one separator between them. */
  lemma {:induction false} JoinAppend(xs: seq<string>, ys: seq<string>, sep: string)
    requires xs != [] && ys != []
    ensures Join(xs + ys, sep) == Join(xs, sep) + sep + Join(ys, sep)
  {
    if |xs| == 1 {
      assert xs + ys == [xs[0]] + ys;
      assert (xs + ys)[1..] == ys;
    } else {
      JoinAppend(xs[1..], ys, sep);
      assert (xs + ys)[1..] == xs[1..] + ys;
    }
  }

  /** The label strings of a concatenation are the concatenated strings. */
  lemma LabelStringsAppend(xs: seq<Label>, ys: seq<Label>)
    ensures LabelStrings(xs + ys) == LabelStrings(xs) + LabelStrings(ys)
  {
    var l, r := LabelStrings(xs + ys), LabelStrings(xs) + LabelStrings(ys);
    forall i | 0 <= i < |l| ensures l[i] == r[i] {
      if i < |xs| {
        assert (xs + ys)[i] == xs[i];
      } else {
        assert (xs + ys)[i] == ys[i - |xs|];
      }
    }
  }

  /** The displayed label list of `k`, without the surrounding brackets. */
  function LabelList(k: Key): string
  {
    Join(LabelStrings(Labels(k)), ", ")
  }

  /**
    Adding labels to a key that already has some extends its displayed
    label list after a separator, leaving the earlier text untouched.
  */
  lemma DisplayAddLabels(k: Key, newLabels: seq<Label>)
    requires Labels(k) != [] && newLabels != []
    ensures Display(AddLabels(k, newLabels))
      == "Key(" + k.name + ", [" + LabelList(k) + ", " + Join(LabelStrings(newLabels), ", ") + "])"
  {
    LabelStringsAppend(Labels(k), newLabels);
    JoinAppend(LabelStrings(Labels(k)), LabelStrings(newLabels), ", ");
  }

  /** Adding labels to a key that has none displays just the new labels. */
  lemma DisplayAddLabelsToBare(k: Key, newLabels: seq<Label>)
    requires Labels(k) == []
    ensures Display(AddLabels(k, newLabels))
      == "Key(" + k.name + ", [" + Join(LabelStrings(newLabels), ", ") + "])"
  {
    assert Labels(AddLabels(k, newLabels)) == newLabels;
  }

  /** A key with no labels and one with an empty label list display differently. */
  lemma DisplayNoLabelsVsEmpty(name: string)
    ensures Display(FromName(name)) == "Key(" + name + ")"
    ensures Display(FromNameAndLabels(name, [])) == "Key(" + name + ", [])"
  {
  }
}
