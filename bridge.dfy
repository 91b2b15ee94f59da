/** The bridge from parsed elements to generic values: the scalar classifier
    for body and attribute text, and the element classifier built on it. */
module XmlBridge {
  import opened XmlTypes

  /** The characters the number scan accepts after the optional sign. */
  predicate IsNumberChar(c: char) {
    ('0' <= c <= '9') || c == '.' || c == 'e' || c == 'E'
  }

  /** The scan loop of the classifier: every character from index `i` on is a
      number character. */
  predicate NumericFrom(text: string, i: nat)
    decreases |text| - i
  {
    i >= |text| || (IsNumberChar(text[i]) && NumericFrom(text, i + 1))
  }

  /** Where the scan starts: past a leading minus sign, if there is one. */
  function ScanStart(text: string): (i: nat)
    requires text != []
    ensures i <= |text|
    ensures i == 1 <==> text[0] == '-'
  {
    if text[0] == '-' then 1 else 0
  }

  /** The flag the scan loop leaves behind: the text is "number-shaped". */
  predicate IsNumberShaped(text: string)
    requires text != []
  {
    NumericFrom(text, ScanStart(text))
  }

  /** Converts body or attribute text to a scalar. The checks run in a fixed
      order: empty or `null`, then `true`/`false`, then the number shape,
      then a single character, and a string otherwise. */
  function BodyToGenericValue(text: string): (r: GenericValue)
    ensures r.Null? || r.Bool? || r.Double? || r.Char? || r.Str?
  {
    if |text| == 0 || text == "null" then Null
    else if text == "true" then Bool(true)
    else if text == "false" then Bool(false)
    else if IsNumberShaped(text) then Double(DoubleOf(text))
    else if |text| == 1 then Char(text[0])
    else Str(text)
  }

  /** The scan loop agrees with its quantified reading: from index `i` on,
      every character is a number character. */
  lemma {:induction false} NumericFromMeansAll(text: string, i: nat)
    ensures NumericFrom(text, i) <==> forall k :: i <= k < |text| ==> IsNumberChar(text[k])
    decreases |text| - i
  {
    if i < |text| {
      NumericFromMeansAll(text, i + 1);
    }
  }

  /** The classifier, stated without the scan loop: each of the five outcomes
      holds exactly when the earlier checks fail and its own check succeeds. */
  lemma BodyClassification(text: string)
    ensures BodyToGenericValue(text) == Null <==> text == "" || text == "null"
    ensures BodyToGenericValue(text).Bool? <==> text == "true" || text == "false"
    ensures BodyToGenericValue(text).Bool? ==> BodyToGenericValue(text).b == (text == "true")
    ensures BodyToGenericValue(text).Double? <==>
              text !in {"", "null", "true", "false"} &&
              forall k :: (if text[0] == '-' then 1 else 0) <= k < |text| ==> IsNumberChar(text[k])
    ensures BodyToGenericValue(text).Double? ==> BodyToGenericValue(text) == Double(DoubleOf(text))
    ensures BodyToGenericValue(text).Char? ==> |text| == 1 && BodyToGenericValue(text) == Char(text[0])
    ensures BodyToGenericValue(text).Str? ==> BodyToGenericValue(text) == Str(text) && |text| >= 2
  {
    if text != [] {
      NumericFromMeansAll(text, ScanStart(text));
    }
  }

  /** A one-character text is never a `Char` when that character is a digit,
      `.`, `e`, `E` or a lone minus sign: the number check runs first. */
  lemma {:induction false} OneNumberCharIsDouble(c: char)
    requires IsNumberChar(c) || c == '-'
    ensures BodyToGenericValue([c]) == Double(DoubleOf([c]))
  {
    assert [c] != "null" && [c] != "true" && [c] != "false";
    assert NumericFrom([c], 1);
  }

  /** The duplicate-name check as the source writes it: does any attribute or
      child name occur in `names`, the list of names already seen? */
  predicate CollisionFound(names: seq<string>, attributes: seq<Attribute>, children: seq<Element>) {
    (exists i :: 0 <= i < |attributes| && attributes[i].name in names) ||
    (exists i :: 0 <= i < |children| && children[i].name in names)
  }

  /** The value of every entry, in order, with the names dropped. */
  function Values(entries: seq<Entry>): (vs: seq<GenericValue>)
    ensures |vs| == |entries|
    ensures forall i :: 0 <= i < |entries| ==> vs[i] == entries[i].value
  {
    seq(|entries|, i requires 0 <= i < |entries| => entries[i].value)
  }

  /** One entry per attribute, its value classified as a scalar. */
  function AttributeEntries(attributes: seq<Attribute>): (es: seq<Entry>)
    ensures |es| == |attributes|
    ensures forall i :: 0 <= i < |attributes| ==>
              es[i] == Entry(attributes[i].name, BodyToGenericValue(attributes[i].value))
  {
    seq(|attributes|, i requires 0 <= i < |attributes| =>
          Entry(attributes[i].name, BodyToGenericValue(attributes[i].value)))
  }

  /** Converts an element to a generic value. An element with nothing in it,
      or with a body beside attributes or children, is `Null`. An element with
      attributes or children and no body is an object: the attributes first,
      then the children converted recursively. The duplicate-name check is run
      against a list of seen names that is never filled, so the array branch
      is not taken. A body-only element is classified, the result dropped,
      and `Null` returned. */
  function ElementToGenericValue(e: Element): (r: GenericValue)
    ensures r.Null? <==> e.body != [] || (e.attributes == [] && e.children == [])
    ensures r.Object? ==> |r.entries| == |e.attributes| + |e.children|
    decreases e
  {
    var bodySize, attributeCount, elementCount := |e.body|, |e.attributes|, |e.children|;
    if bodySize + attributeCount + elementCount == 0 then Null
    else if attributeCount + elementCount > 0 then
      if bodySize > 0 then Null
      else
        var entries := AttributeEntries(e.attributes) +
          seq(elementCount, i requires 0 <= i < elementCount =>
                Entry(e.children[i].name, ElementToGenericValue(e.children[i])));
        var names: seq<string> := [];
        if CollisionFound(names, e.attributes, e.children) then Array(Values(entries))
        else Object(entries)
    else
      var discarded := BodyToGenericValue(e.body);
      Null
  }

  /** The three ways to `Null`: an empty element, a body beside attributes or
      children, and a body alone. Every other element becomes an object. */
  lemma ElementNullCases(e: Element)
    ensures ElementToGenericValue(e) == Null <==>
              e.body != [] || (e.attributes == [] && e.children == [])
    ensures ElementToGenericValue(e) != Null ==> ElementToGenericValue(e).Object?
  {
  }

  /** The layout of an object: one entry per attribute, in order, then one per
      child, in order; names are kept, attribute values are classified as
      scalars and children are converted recursively. */
  lemma ObjectLayout(e: Element)
    requires e.body == [] && (e.attributes != [] || e.children != [])
    ensures ElementToGenericValue(e).Object?
    ensures |ElementToGenericValue(e).entries| == |e.attributes| + |e.children|
    ensures forall i :: 0 <= i < |e.attributes| ==>
              ElementToGenericValue(e).entries[i] ==
              Entry(e.attributes[i].name, BodyToGenericValue(e.attributes[i].value))
    ensures forall j :: 0 <= j < |e.children| ==>
              ElementToGenericValue(e).entries[|e.attributes| + j] ==
              Entry(e.children[j].name, ElementToGenericValue(e.children[j]))
  {
  }

  /** No generic value anywhere in the tree is an array. */
  predicate NoArray(v: GenericValue) {
    match v
    case Array(_) => false
    case Object(entries) => forall i :: 0 <= i < |entries| ==> NoArray(entries[i].value)
    case _ => true
  }

  /** Since the list of seen names stays empty, the array branch is
      unreachable, at every depth of the converted tree. */
  lemma {:induction false} NeverArray(e: Element)
    ensures NoArray(ElementToGenericValue(e))
    decreases e
  {
    var r := ElementToGenericValue(e);
    if r.Object? {
      ObjectLayout(e);
      forall i | 0 <= i < |r.entries| ensures NoArray(r.entries[i].value) {
        if i < |e.attributes| {
        } else {
          NeverArray(e.children[i - |e.attributes|]);
        }
      }
    }
  }

  /** Two attributes with the same name still give an object, with both
      entries kept in order. */
  lemma DuplicateNamesGiveObject(name: string, v1: string, v2: string)
    ensures ElementToGenericValue(Element("r", "", [Attribute(name, v1), Attribute(name, v2)], [])) ==
            Object([Entry(name, BodyToGenericValue(v1)), Entry(name, BodyToGenericValue(v2))])
  {
  }

  /** A body alone is classified and the result dropped: `<flag>true</flag>`
      converts to `Null`, although its body alone would be `true`. */
  lemma BodyOnlyIsDiscarded(name: string, body: string)
    requires body != []
    ensures ElementToGenericValue(Element(name, body, [], [])) == Null
  {
  }
}
