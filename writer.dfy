/** The writers: attributes and elements, and generic arrays and objects,
    each rendered as the text it appends to the output stream. */
module XmlWriter {
  import opened XmlTypes

  /** How numbers are rendered. The stream's decimal formatting is not part
      of this model, so the writers take it as a parameter. */
  datatype Formatter = Formatter(unsigned: nat -> string, signed: int -> string, double: DoubleText -> string)

  /** A writer's verdict and the text it appended before returning it. */
  datatype Written = Written(ok: bool, text: string)

  /** `name="value"`, with no escaping of either part. */
  function WriteAttribute(a: Attribute): (t: string)
    ensures |t| == |a.name| + |a.value| + 3
    ensures t[|a.name|] == '=' && t[|t| - 1] == '"'
  {
    a.name + "=\"" + a.value + "\""
  }

  /** The attribute list of a start tag: every attribute followed by a space. */
  function AttributeList(attributes: seq<Attribute>): (t: string)
    ensures attributes == [] <==> t == []
  {
    if attributes == [] then ""
    else WriteAttribute(attributes[0]) + " " + AttributeList(attributes[1..])
  }

  /** `<name`, then, when there are attributes, a space and the attribute list. */
  function OpenTag(e: Element): (t: string)
    ensures |t| >= 1 + |e.name| && t[..1 + |e.name|] == "<" + e.name
  {
    "<" + e.name + (if |e.attributes| > 0 then " " + AttributeList(e.attributes) else "")
  }

  /** Writes an element. With neither body nor children the tag self-closes.
      Otherwise the branches for the body and the children are swapped: with
      a body the children are written (there are none when this succeeds),
      and without a body the empty body is written. A body beside children
      fails after the opening tag. */
  function WriteElement(e: Element): (r: Written)
    ensures r.ok <==> e.body == [] || e.children == []
    decreases e, 1
  {
    var head := OpenTag(e);
    var bodySize, elementCount := |e.body|, |e.children|;
    if bodySize + elementCount == 0 then Written(true, head + "/>")
    else if bodySize != 0 then
      if elementCount != 0 then Written(false, head + ">")
      else Written(true, head + ">" + WriteChildren(e.children) + "</" + e.name + ">")
    else Written(true, head + ">" + e.body + "</" + e.name + ">")
  }

  /** The children written one after another; their verdicts are ignored. */
  function WriteChildren(children: seq<Element>): (t: string)
    decreases children, 0
  {
    if children == [] then ""
    else WriteElement(children[0]).text + WriteChildren(children[1..])
  }

  /** Writes a generic array: `<name/>` when it is empty, and otherwise
      `<name>`, one `solaire_array_element` per item and `</name>`. */
  function WriteArray(name: string, items: seq<GenericValue>, f: Formatter): (t: string)
    ensures items == [] <==> t == "<" + name + "/>"
    ensures |t| > |name| + 1 && t[..|name| + 1] == "<" + name
    decreases items, 2
  {
    "<" + name +
    (if |items| > 0 then ">" + ArrayItems(items, f) + "</" + name + ">" else "/>")
  }

  /** The items of an array, in order. */
  function ArrayItems(items: seq<GenericValue>, f: Formatter): (t: string)
    decreases items, 1
  {
    if items == [] then ""
    else ArrayItem(items[0], f) + ArrayItems(items[1..], f)
  }

  /** One array item: a scalar is a self-closing element with a `type`
      attribute and, unless it is null, a `value` attribute; an array or an
      object is written recursively under the element name. */
  function ArrayItem(x: GenericValue, f: Formatter): (t: string)
    ensures |t| > |ItemName| + 1 && t[..|ItemName| + 1] == "<" + ItemName
    decreases x, 0
  {
    match x
    case Null => "<" + ItemName + " type=\"null\"/>"
    case Char(c) => ValuedItemOpening("char") + [c] + "\"/>"
    case Bool(b) =>
      ValuedItemOpening("bool") + (if b then "true" else "false") + "\"/>"
    case Unsigned(u) => ValuedItemOpening("number") + f.unsigned(u) + "\"/>"
    case Signed(i) => ValuedItemOpening("number") + f.signed(i) + "\"/>"
    case Double(d) => ValuedItemOpening("number") + f.double(d) + "\"/>"
    case Str(s) => ValuedItemOpening("string") + s + "\"/>"
    case Array(items) => WriteArray(ItemName, items, f)
    case Object(entries) => WriteObject(ItemName, entries, f)
  }

  /** What a valued array item writes before its value text. */
  function ValuedItemOpening(typeName: string): (t: string)
    ensures |t| > |ItemName| + 1 && t[..|ItemName| + 1] == "<" + ItemName
  {
    "<" + ItemName + " type=\"" + typeName + "\" value=\""
  }

  /** The element name of every array item. */
  const ItemName: string := "solaire_array_element"

  /** Writes a generic object: `<name/>` when it is empty, and otherwise
      `<name `, every scalar entry as an attribute, `>`, every array or
      object entry as a nested element, and `</name>`. */
  function WriteObject(name: string, entries: seq<Entry>, f: Formatter): (t: string)
    ensures entries == [] <==> t == "<" + name + "/>"
    ensures |t| > |name| + 1 && t[..|name| + 1] == "<" + name
    decreases entries, 2
  {
    if |entries| == 0 then "<" + name + "/>"
    else "<" + name + " " + ObjectAttributes(entries, f) + ">" + ObjectTags(entries, f) + "</" + name + ">"
  }

  /** The attribute pass over an object's entries, in order. */
  function ObjectAttributes(entries: seq<Entry>, f: Formatter): (t: string)
  {
    if entries == [] then ""
    else EntryAttribute(entries[0], f) + ObjectAttributes(entries[1..], f)
  }

  /** One entry in the attribute pass: a scalar becomes `name="text" `,
      with `null`, `true` and `false` spelled out; arrays and objects are
      skipped. */
  function EntryAttribute(en: Entry, f: Formatter): (t: string)
    ensures en.value.IsScalar() <==> t != ""
  {
    match en.value
    case Null => en.name + "=\"null\" "
    case Char(c) => en.name + "=\"" + [c] + "\" "
    case Bool(b) => en.name + (if b then "=\"true\" " else "=\"false\" ")
    case Unsigned(u) => en.name + "=\"" + f.unsigned(u) + "\" "
    case Signed(i) => en.name + "=\"" + f.signed(i) + "\" "
    case Double(d) => en.name + "=\"" + f.double(d) + "\" "
    case Str(s) => en.name + "=\"" + s + "\" "
    case Array(_) => ""
    case Object(_) => ""
  }

  /** The element pass over an object's entries, in order. */
  function ObjectTags(entries: seq<Entry>, f: Formatter): (t: string)
    decreases entries, 1
  {
    if entries == [] then ""
    else EntryTag(entries[0], f) + ObjectTags(entries[1..], f)
  }

  /** One entry in the element pass: an array or an object is written under
      the entry's name; scalars are skipped. */
  function EntryTag(en: Entry, f: Formatter): (t: string)
    ensures en.value.IsScalar() <==> t == ""
    decreases en, 0
  {
    match en.value
    case Array(items) => WriteArray(en.name, items, f)
    case Object(es) => WriteObject(en.name, es, f)
    case _ => ""
  }

  /** Writes a top-level generic value: an array under the name `array`, an
      object under the name `object`; any other value is refused. */
  function WriteValue(v: GenericValue, f: Formatter): (r: Written)
    ensures r.ok <==> !v.IsScalar()
    ensures !r.ok ==> r.text == ""
  {
    match v
    case Array(items) => Written(true, WriteArray("array", items, f))
    case Object(entries) => Written(true, WriteObject("object", entries, f))
    case _ => Written(false, "")
  }

  /** The entries an object writes in its attribute pass, in order. */
  function Scalars(entries: seq<Entry>): (r: seq<Entry>)
    ensures |r| <= |entries|
    ensures forall i :: 0 <= i < |r| ==> r[i].value.IsScalar() && r[i] in entries
  {
    if entries == [] then []
    else if entries[0].value.IsScalar() then [entries[0]] + Scalars(entries[1..])
    else Scalars(entries[1..])
  }

  /** The entries an object writes in its element pass, in order. */
  function Nested(entries: seq<Entry>): (r: seq<Entry>)
    ensures |r| <= |entries|
    ensures forall i :: 0 <= i < |r| ==> !r[i].value.IsScalar() && r[i] in entries
  {
    if entries == [] then []
    else if entries[0].value.IsScalar() then Nested(entries[1..])
    else [entries[0]] + Nested(entries[1..])
  }

  /** The two groups together are a rearrangement of the entries. */
  lemma {:induction false} Partition(entries: seq<Entry>)
    ensures multiset(Scalars(entries) + Nested(entries)) == multiset(entries)
    ensures |Scalars(entries)| + |Nested(entries)| == |entries|
  {
    if entries != [] {
      Partition(entries[1..]);
      assert entries == [entries[0]] + entries[1..];
    }
  }

  /** The attribute pass writes only the scalar entries, in order. */
  lemma {:induction false} AttributePassFilter(entries: seq<Entry>, f: Formatter)
    ensures ObjectAttributes(entries, f) == ObjectAttributes(Scalars(entries), f)
    ensures ObjectAttributes(Nested(entries), f) == ""
  {
    if entries != [] {
      AttributePassFilter(entries[1..], f);
      var e0, rest := entries[0], entries[1..];
      if e0.value.IsScalar() {
        assert Scalars(entries) == [e0] + Scalars(rest);
        assert Scalars(entries)[1..] == Scalars(rest);
        assert Nested(entries) == Nested(rest);
      } else {
        assert Nested(entries) == [e0] + Nested(rest);
        assert Nested(entries)[1..] == Nested(rest);
        assert Scalars(entries) == Scalars(rest);
      }
    }
  }

  /** The element pass writes only the array and object entries, in order. */
  lemma {:induction false} TagPassFilter(entries: seq<Entry>, f: Formatter)
    ensures ObjectTags(entries, f) == ObjectTags(Nested(entries), f)
    ensures ObjectTags(Scalars(entries), f) == ""
  {
    if entries != [] {
      TagPassFilter(entries[1..], f);
      var e0, rest := entries[0], entries[1..];
      if e0.value.IsScalar() {
        assert Scalars(entries) == [e0] + Scalars(rest);
        assert Scalars(entries)[1..] == Scalars(rest);
        assert Nested(entries) == Nested(rest);
      } else {
        assert Nested(entries) == [e0] + Nested(rest);
        assert Nested(entries)[1..] == Nested(rest);
        assert Scalars(entries) == Scalars(rest);
      }
    }
  }

  /** The attribute pass distributes over a split of the entries. */
  lemma {:induction false} AttributesAppend(a: seq<Entry>, b: seq<Entry>, f: Formatter)
    ensures ObjectAttributes(a + b, f) == ObjectAttributes(a, f) + ObjectAttributes(b, f)
  {
    if a == [] {
      assert a + b == b;
    } else {
      var h := EntryAttribute(a[0], f);
      assert ObjectAttributes(a + b, f) == h + ObjectAttributes(a[1..] + b, f) by {
        assert (a + b)[0] == a[0];
        assert (a + b)[1..] == a[1..] + b;
      }
      AttributesAppend(a[1..], b, f);
    }
  }

  /** The element pass distributes over a split of the entries. */
  lemma {:induction false} TagsAppend(a: seq<Entry>, b: seq<Entry>, f: Formatter)
    ensures ObjectTags(a + b, f) == ObjectTags(a, f) + ObjectTags(b, f)
  {
    if a == [] {
      assert a + b == b;
    } else {
      var h := EntryTag(a[0], f);
      assert ObjectTags(a + b, f) == h + ObjectTags(a[1..] + b, f) by {
        assert (a + b)[0] == a[0];
        assert (a + b)[1..] == a[1..] + b;
      }
      TagsAppend(a[1..], b, f);
    }
  }

  /** Every scalar entry of a non-empty object is written before every array
      or object entry: the object is written exactly as the object whose
      entries are its scalar entries followed by its other entries. */
  lemma ScalarsBeforeNested(name: string, entries: seq<Entry>, f: Formatter)
    ensures WriteObject(name, entries, f) == WriteObject(name, Scalars(entries) + Nested(entries), f)
  {
    if entries != [] {
      var s, n := Scalars(entries), Nested(entries);
      AttributePassFilter(entries, f);
      TagPassFilter(entries, f);
      AttributesAppend(s, n, f);
      TagsAppend(s, n, f);
      Partition(entries);
      assert ObjectAttributes(s + n, f) == ObjectAttributes(entries, f) by {
        assert ObjectAttributes(s, f) + "" == ObjectAttributes(s, f);
      }
      assert ObjectTags(s + n, f) == ObjectTags(entries, f) by {
        assert "" + ObjectTags(n, f) == ObjectTags(n, f);
      }
    }
  }

  /** The text that stands for a scalar: `null`, the character, `true` or
      `false`, the formatted number or the string itself. */
  function ScalarText(v: GenericValue, f: Formatter): (t: string)
    requires v.IsScalar()
  {
    match v
    case Null => "null"
    case Char(c) => [c]
    case Bool(b) => if b then "true" else "false"
    case Unsigned(u) => f.unsigned(u)
    case Signed(i) => f.signed(i)
    case Double(d) => f.double(d)
    case Str(s) => s
  }

  /** The scalar entries of an object as the attributes its start tag carries. */
  function AsAttributes(entries: seq<Entry>, f: Formatter): (r: seq<Attribute>)
    requires forall i :: 0 <= i < |entries| ==> entries[i].value.IsScalar()
    ensures |r| == |entries|
    ensures forall i :: 0 <= i < |entries| ==>
              r[i] == Attribute(entries[i].name, ScalarText(entries[i].value, f))
  {
    seq(|entries|, i requires 0 <= i < |entries| => Attribute(entries[i].name, ScalarText(entries[i].value, f)))
  }

  /** The attribute pass of an object writes the same text as an element's
      attribute list holding one attribute per scalar entry, named after the
      entry and valued with its text. */
  lemma {:induction false} ObjectAttributesAsList(entries: seq<Entry>, f: Formatter)
    ensures ObjectAttributes(entries, f) == AttributeList(AsAttributes(Scalars(entries), f))
  {
    AttributePassFilter(entries, f);
    ScalarAttributesAsList(Scalars(entries), f);
  }

  /** The attribute pass over scalar entries alone, one entry at a time. */
  lemma {:induction false} ScalarAttributesAsList(entries: seq<Entry>, f: Formatter)
    requires forall i :: 0 <= i < |entries| ==> entries[i].value.IsScalar()
    ensures ObjectAttributes(entries, f) == AttributeList(AsAttributes(entries, f))
  {
    if entries != [] {
      var attributes := AsAttributes(entries, f);
      assert attributes[1..] == AsAttributes(entries[1..], f);
      ScalarAttributesAsList(entries[1..], f);
      EntryAttributeAsAttribute(entries[0], f);
    }
  }

  /** A scalar entry's attribute is written exactly as the attribute writer
      writes the entry's name and text, followed by a space. */
  lemma EntryAttributeAsAttribute(en: Entry, f: Formatter)
    requires en.value.IsScalar()
    ensures EntryAttribute(en, f) == WriteAttribute(Attribute(en.name, ScalarText(en.value, f))) + " "
  {
    var open, close := "=\"", "\" ";
    assert close == "\"" + " ";
    match en.value
    case Null => assert "=\"null\" " == open + "null" + close;
    case Bool(b) =>
      assert "=\"true\" " == open + "true" + close;
      assert "=\"false\" " == open + "false" + close;
    case _ =>
  }

  /** The `type` attribute of a scalar array item. */
  function TypeName(v: GenericValue): (t: string)
    requires v.IsScalar()
  {
    match v
    case Null => "null"
    case Char(_) => "char"
    case Bool(_) => "bool"
    case Unsigned(_) => "number"
    case Signed(_) => "number"
    case Double(_) => "number"
    case Str(_) => "string"
  }

  /** A null array item is a self-closing `solaire_array_element` whose only
      attribute is its type, written like any other attribute. */
  lemma NullItem(f: Formatter)
    ensures ArrayItem(Null, f) ==
            "<" + ItemName + " " + WriteAttribute(Attribute("type", TypeName(Null))) + "/>"
  {
    var head, attribute := "<" + ItemName, WriteAttribute(Attribute("type", "null"));
    assert attribute == "type=\"null\"";
    assert " type=\"null\"/>" == " " + attribute + "/>";
    assert head + (" " + attribute + "/>") == head + " " + attribute + "/>";
  }

  /** Every other scalar array item is a self-closing `solaire_array_element`
      carrying its type and its text as two attributes, written like any
      other attribute. */
  lemma ValuedItemLayout(x: GenericValue, f: Formatter)
    requires x.IsScalar() && !x.Null?
    ensures ArrayItem(x, f) ==
            "<" + ItemName + " " + WriteAttribute(Attribute("type", TypeName(x))) + " " +
            WriteAttribute(Attribute("value", ScalarText(x, f))) + "/>"
  {
    var t := ScalarText(x, f);
    assert ArrayItem(x, f) == ValuedItemOpening(TypeName(x)) + t + "\"/>" by {
      match x
      case Bool(b) =>
      case _ =>
    }
    ValuedItem(TypeName(x), t);
  }

  /** A valued array item is the element tag with its two attributes. */
  lemma ValuedItem(typeName: string, text: string)
    ensures ValuedItemOpening(typeName) + text + "\"/>" ==
            "<" + ItemName + " " + WriteAttribute(Attribute("type", typeName)) + " " +
            WriteAttribute(Attribute("value", text)) + "/>"
  {
    var head := "<" + ItemName + " ";
    var typeAttribute := WriteAttribute(Attribute("type", typeName));
    var valueAttribute := WriteAttribute(Attribute("value", text));
    var rest := " value=\"" + text + "\"/>";
    assert ValuedItemOpening(typeName) + text + "\"/>" == head + typeAttribute + rest by {
      assert typeAttribute == "type=\"" + typeName + "\"";
    }
    assert rest == " " + valueAttribute + "/>" by {
      assert valueAttribute == "value=\"" + text + "\"";
    }
  }

  /** An empty array and an empty object are both written as the element
      with the container's name and nothing else in it. */
  lemma EmptyContainers(name: string, f: Formatter)
    ensures WriteArray(name, [], f) == WriteElement(Element(name, "", [], [])).text
    ensures WriteObject(name, [], f) == WriteElement(Element(name, "", [], [])).text
    ensures WriteElement(Element(name, "", [], [])).text == "<" + name + "/>"
  {
  }

  /** The four outcomes of writing an element. It fails exactly when the
      element has both a body and children. Without either it self-closes.
      Otherwise, whether it succeeds or fails, neither the body nor the
      children appear in the text. */
  lemma WriteElementCases(e: Element)
    ensures WriteElement(e).ok <==> e.body == [] || e.children == []
    ensures e.body == [] && e.children == [] ==> WriteElement(e).text == OpenTag(e) + "/>"
    ensures !WriteElement(e).ok ==> WriteElement(e).text == OpenTag(e) + ">"
    ensures WriteElement(e).ok && (e.body != [] || e.children != []) ==>
              WriteElement(e).text == OpenTag(e) + ("></" + e.name + ">")
  {
    var head, closing := OpenTag(e), "</" + e.name + ">";
    assert head + ">" + "" + closing == head + ("></" + e.name + ">");
    assert WriteChildren([]) == "";
  }
}
