/** What the reader makes of the writers' output: each written attribute is
    read back with its value moved into its name, and a written start tag is
    read back as the same tag over those attributes. */
module XmlRoundTrip {
  import opened XmlTypes
  import opened XmlReaderSpec
  import opened XmlWriter
  import opened XmlBridge

  /** An attribute the attribute scan can find its way through once written:
      no `=` in the name, no `"` in the value, and a name that does not start
      with whitespace, `/` or `>`. */
  predicate Readable(a: Attribute) {
    (forall i :: 0 <= i < |a.name| ==> a.name[i] != '=') &&
    (forall i :: 0 <= i < |a.value| ==> a.value[i] != '"') &&
    (a.name == [] || !IsNameStop(a.name[0]))
  }

  /** Every attribute of the list is readable. */
  predicate AllReadable(attributes: seq<Attribute>) {
    forall i :: 0 <= i < |attributes| ==> Readable(attributes[i])
  }

  /** What the reader returns for a written attribute: the value appended to
      the name, and an empty value. */
  function ReadBack(attributes: seq<Attribute>): (r: seq<Attribute>)
    ensures |r| == |attributes|
    ensures forall i :: 0 <= i < |attributes| ==>
              r[i] == Attribute(attributes[i].name + attributes[i].value, "")
  {
    seq(|attributes|, i requires 0 <= i < |attributes| =>
          Attribute(attributes[i].name + attributes[i].value, ""))
  }

  /** The search for `ch` from `i` stops right after a stretch `t` that has
      no `ch` in it, when `ch` follows the stretch. */
  lemma FindCharAfter(s: string, i: nat, t: string, ch: char)
    requires i + |t| < |s| && s[i..i + |t|] == t && s[i + |t|] == ch
    requires forall x :: 0 <= x < |t| ==> t[x] != ch
    ensures FindChar(s, i, ch) == i + |t|
  {
    forall x | i <= x < i + |t| ensures s[x] != ch {
      assert s[x] == t[x - i];
    }
    FindCharAt(s, i, i + |t|, ch);
  }

  /** A stretch `t` found at index `k` of `s` has its slices and characters
      at the same places, shifted by `k`. */
  lemma SliceAt(s: string, k: nat, t: string, i: nat, j: nat)
    requires k + |t| <= |s| && s[k..k + |t|] == t && i <= j <= |t|
    ensures s[k + i..k + j] == t[i..j]
    ensures i < |t| ==> s[k + i] == t[i]
  {
    var u := s[k..k + |t|];
    forall x | 0 <= x < j - i ensures s[k + i..k + j][x] == t[i..j][x] {
      assert s[k + i + x] == u[i + x];
    }
    if i < |t| {
      assert s[k + i] == u[i];
    }
  }

  /** The pieces of a written attribute, by position. */
  lemma AttributeTextPieces(a: Attribute)
    ensures var w := WriteAttribute(a);
            var n := |a.name|;
            |w| == n + |a.value| + 3 && w[..n] == a.name && w[n] == '=' && w[n + 1] == '"' &&
            w[n + 2..n + 2 + |a.value|] == a.value && w[|w| - 1] == '"'
  {
    var w := WriteAttribute(a);
    assert w == a.name + ['=', '"'] + a.value + ['"'];
  }

  /** The pieces of a written attribute found at index `k`. */
  lemma WrittenAttributePieces(s: string, k: nat, a: Attribute)
    requires k + |WriteAttribute(a)| <= |s| && s[k..k + |WriteAttribute(a)|] == WriteAttribute(a)
    ensures var e := k + |a.name|;
            var f := e + 2 + |a.value|;
            f < |s| && s[k..e] == a.name && s[e] == '=' && s[e + 1] == '"' &&
            s[e + 2..f] == a.value && s[f] == '"' && |WriteAttribute(a)| == |a.name| + |a.value| + 3
  {
    var w := WriteAttribute(a);
    var n := |a.name|;
    AttributeTextPieces(a);
    SliceAt(s, k, w, 0, n);
    SliceAt(s, k, w, n, n);
    SliceAt(s, k, w, n + 1, n + 1);
    SliceAt(s, k, w, n + 2, n + 2 + |a.value|);
    SliceAt(s, k, w, |w| - 1, |w| - 1);
  }

  /** Scanning a written attribute at index `k` of a larger text reads it to
      its closing quote, with the value moved into the name. */
  lemma ScanWrittenAttribute(s: string, k: nat, a: Attribute, next: nat)
    requires Readable(a)
    requires k + |WriteAttribute(a)| <= |s| && s[k..k + |WriteAttribute(a)|] == WriteAttribute(a)
    requires next == k + |WriteAttribute(a)|
    ensures AttributeScan(s, k) == AttributeAt(Attribute(a.name + a.value, ""), next)
  {
    WrittenAttributePieces(s, k, a);
    ScanPieces(s, k, a.name, a.value, next);
  }

  /** The attribute scan over `name="value"` at index `k`, given piece by
      piece. */
  lemma ScanPieces(s: string, k: nat, name: string, value: string, next: nat)
    requires (forall i :: 0 <= i < |name| ==> name[i] != '=') && (forall i :: 0 <= i < |value| ==> value[i] != '"')
    requires name == [] || !IsSpace(name[0])
    requires var e := k + |name|;
             var f := e + 2 + |value|;
             f < |s| && s[k..e] == name && s[e] == '=' && s[e + 1] == '"' && s[e + 2..f] == value && s[f] == '"'
    requires next == k + |name| + |value| + 3
    ensures AttributeScan(s, k) == AttributeAt(Attribute(name + value, ""), next)
  {
    var e := k + |name|;
    var f := e + 2 + |value|;
    assert SkipSpaces(s, k) == k by {
      if name != [] {
        assert s[k] == s[k..e][0];
      }
    }
    FindCharAfter(s, k, name, '=');
    FindCharAfter(s, e + 2, value, '"');
    AttributeScanFound(s, k, k, e, f);
  }

  /** Scanning a written attribute on its own reads all of it, and returns the
      name followed by the value as the name, and an empty value. */
  lemma ReadWrittenAttribute(a: Attribute)
    requires Readable(a)
    ensures AttributeScan(WriteAttribute(a), 0) == AttributeAt(Attribute(a.name + a.value, ""), |WriteAttribute(a)|)
  {
    var w := WriteAttribute(a);
    assert w[0..|w|] == w;
    ScanWrittenAttribute(w, 0, a, |w|);
  }

  /** A round that stands on whitespace at `j`, with something else at
      `j + 1`, decides on that character, having read it. */
  lemma RoundFromSpace(s: string, name: string, acc: seq<Attribute>, p: nat, c: char, peeked: bool, j: nat)
    requires Cursor(s, p, c, peeked) && IsSpace(c) && j == (if peeked then p else p - 1)
    requires j + 1 < |s| && !IsSpace(s[j + 1])
    ensures Cursor(s, j + 2, s[j + 1], false)
    ensures TagRound(s, name, acc, p, c, peeked) == TagDecide(s, name, acc, j + 2, s[j + 1], false)
  {
    assert SkipSpaces(s, p) == j + 1;
  }

  /** How a start tag ends when `>` or `/>` stands at `m`, with the
      attributes read so far. */
  function TagEnd(s: string, m: nat, name: string, attrs: seq<Attribute>): StartTagOutcome
    requires m < |s|
  {
    if s[m] == '>' then Opened(name, attrs, m + 1, false)
    else SelfClosed(Element(name, "", attrs, []), m + 2)
  }

  /** The round of the attribute loop that stands on whitespace at `j`
      just before the end of the tag at `m`: it ends the tag. */
  lemma ClosingRound(s: string, name: string, acc: seq<Attribute>, p: nat, c: char, peeked: bool, j: nat, m: nat)
    requires Cursor(s, p, c, peeked) && IsSpace(c) && j == (if peeked then p else p - 1)
    requires m == j + 1 && m < |s|
    requires s[m] == '>' || (s[m] == '/' && m + 1 < |s| && s[m + 1] == '>')
    ensures TagLoop(s, name, acc, p, c, peeked) == TagEnd(s, m, name, acc)
  {
    RoundFromSpace(s, name, acc, p, c, peeked, j);
  }

  /** A written attribute starts with a character that does not end a tag
      name, and neither `/` nor `>`. */
  lemma WrittenAttributeStart(s: string, k: nat, a: Attribute)
    requires Readable(a)
    requires k + |WriteAttribute(a)| <= |s| && s[k..k + |WriteAttribute(a)|] == WriteAttribute(a)
    ensures k < |s| && !IsNameStop(s[k]) && s[k] != '/' && s[k] != '>'
  {
    var w := WriteAttribute(a);
    assert s[k] == w[0] by {
      assert s[k] == s[k..k + |w|][0];
    }
    if a.name != [] {
      assert w[0] == a.name[0];
    } else {
      assert w[0] == '=';
    }
  }

  /** The round of the attribute loop that stands on whitespace at `j`,
      with an attribute starting at `j + 1` that the scan reads up to `k`:
      it adds that attribute and stops at `k`, having peeked at it. */
  lemma RoundOverAttribute(s: string, name: string, acc: seq<Attribute>, p: nat, c: char, peeked: bool,
                           j: nat, read: Attribute, k: nat)
    requires Cursor(s, p, c, peeked) && IsSpace(c) && j == (if peeked then p else p - 1)
    requires j + 1 < |s| && !IsNameStop(s[j + 1])
    requires AttributeScan(s, j + 1) == AttributeAt(read, k) && k < |s|
    ensures TagRound(s, name, acc, p, c, peeked) == Again(acc + [read], k, s[k], true)
  {
    RoundFromSpace(s, name, acc, p, c, peeked, j);
  }

  /** A written attribute list at `j + 1` is its first attribute, a space,
      and the rest of the list. */
  lemma ListPieces(s: string, j: nat, attributes: seq<Attribute>, m: nat)
    requires attributes != []
    requires m == j + 1 + |AttributeList(attributes)| && m <= |s|
    requires s[j + 1..m] == AttributeList(attributes)
    ensures var w := WriteAttribute(attributes[0]);
            var j' := j + 1 + |w|;
            j' < m && s[j + 1..j'] == w && s[j'] == ' ' && s[j' + 1..m] == AttributeList(attributes[1..])
  {
    var w := WriteAttribute(attributes[0]);
    var j' := j + 1 + |w|;
    assert AttributeList(attributes) == w + " " + AttributeList(attributes[1..]);
    assert s[j + 1..j'] == s[j + 1..m][..|w|];
    assert s[j'] == s[j + 1..m][|w|];
    assert s[j' + 1..m] == s[j + 1..m][|w| + 1..];
  }

  /** The round of the attribute loop that stands on whitespace at `j`,
      just before a written attribute followed by a space at `k`, reads the
      attribute back and hands the loop on to the next round, which stands
      on that space, having peeked at it. */
  lemma LoopOverWrittenAttribute(s: string, name: string, acc: seq<Attribute>, p: nat, c: char, peeked: bool,
                                 j: nat, a: Attribute, k: nat)
    requires Cursor(s, p, c, peeked) && IsSpace(c) && j == (if peeked then p else p - 1)
    requires Readable(a) && k == j + 1 + |WriteAttribute(a)|
    requires k < |s| && s[j + 1..k] == WriteAttribute(a) && s[k] == ' '
    ensures Cursor(s, k, ' ', true)
    ensures TagLoop(s, name, acc, p, c, peeked) == TagLoop(s, name, acc + [Attribute(a.name + a.value, "")], k, ' ', true)
  {
    var read := Attribute(a.name + a.value, "");
    WrittenAttributeStart(s, j + 1, a);
    ScanWrittenAttribute(s, j + 1, a, k);
    RoundOverAttribute(s, name, acc, p, c, peeked, j, read, k);
  }

  /** Reading back one more attribute extends the list read so far. */
  lemma ReadBackCons(acc: seq<Attribute>, attributes: seq<Attribute>)
    requires attributes != []
    ensures acc + [Attribute(attributes[0].name + attributes[0].value, "")] + ReadBack(attributes[1..]) ==
            acc + ReadBack(attributes)
  {
    assert ReadBack(attributes) ==
           [Attribute(attributes[0].name + attributes[0].value, "")] + ReadBack(attributes[1..]);
  }

  /** The attribute loop over a written attribute list. Index `j` holds the
      whitespace the loop stands on, the list follows it, and `>` or `/>`
      follows the list at index `m`. The loop reads every attribute back and
      ends the tag there. */
  lemma {:induction false} LoopOverWrittenList(s: string, name: string, acc: seq<Attribute>, p: nat, c: char,
                                               peeked: bool, j: nat, attributes: seq<Attribute>, m: nat)
    requires Cursor(s, p, c, peeked) && IsSpace(c) && j == (if peeked then p else p - 1)
    requires AllReadable(attributes)
    requires m == j + 1 + |AttributeList(attributes)| && m < |s|
    requires s[j + 1..m] == AttributeList(attributes)
    requires s[m] == '>' || (s[m] == '/' && m + 1 < |s| && s[m + 1] == '>')
    ensures TagLoop(s, name, acc, p, c, peeked) == TagEnd(s, m, name, acc + ReadBack(attributes))
    decreases |attributes|
  {
    if attributes == [] {
      ClosingRound(s, name, acc, p, c, peeked, j, m);
      assert acc + ReadBack(attributes) == acc;
    } else {
      var a := attributes[0];
      var j' := j + 1 + |WriteAttribute(a)|;
      var acc' := acc + [Attribute(a.name + a.value, "")];
      ListRest(s, j, acc, attributes, m);
      LoopOverWrittenAttribute(s, name, acc, p, c, peeked, j, a, j');
      LoopOverWrittenList(s, name, acc', j', ' ', true, j', attributes[1..], m);
    }
  }

  /** Past the first attribute of a written list and its space, the rest of
      the list follows; reading the first attribute back and then the rest
      reads the whole list back. */
  lemma ListRest(s: string, j: nat, acc: seq<Attribute>, attributes: seq<Attribute>, m: nat)
    requires AllReadable(attributes) && attributes != []
    requires m == j + 1 + |AttributeList(attributes)| && m <= |s|
    requires s[j + 1..m] == AttributeList(attributes)
    ensures var a := attributes[0];
            var j' := j + 1 + |WriteAttribute(a)|;
            Readable(a) && j' < m && s[j + 1..j'] == WriteAttribute(a) && s[j'] == ' ' &&
            AllReadable(attributes[1..]) &&
            m == j' + 1 + |AttributeList(attributes[1..])| && s[j' + 1..m] == AttributeList(attributes[1..]) &&
            acc + [Attribute(a.name + a.value, "")] + ReadBack(attributes[1..]) == acc + ReadBack(attributes)
  {
    ListPieces(s, j, attributes, m);
    ReadBackCons(acc, attributes);
  }

  /** A text that opens with `<` and a readable name, ended by whitespace,
      `/` or `>`, enters the attribute loop on that character. */
  lemma NameThenLoop(t: string, name: string)
    requires NoNameStop(name)
    requires 1 + |name| < |t| && t[0] == '<' && t[1..1 + |name|] == name && IsNameStop(t[1 + |name|])
    ensures Cursor(t, 2 + |name|, t[1 + |name|], false)
    ensures StartTag(t, 0) == TagLoop(t, name, [], 2 + |name|, t[1 + |name|], false)
  {
    var n := 1 + |name|;
    forall x | 1 <= x < n ensures !IsNameStop(t[x]) {
      assert t[x] == name[x - 1];
    }
    FindNameStopAt(t, 1, n);
    assert SkipSpaces(t, 0) == 0;
    assert t[1..n] == name;
    StartTagEntersLoop(t, 0, 0, n, name, t[n]);
  }

  /** A start tag of the writers' form, `<name`, a space, an attribute list
      and then `>` or `/>`, is read back with every attribute's value moved
      into its name. */
  lemma StartTagOverList(t: string, name: string, list: string, attributes: seq<Attribute>, m: nat)
    requires NoNameStop(name) && AllReadable(attributes) && list == AttributeList(attributes)
    requires m == 2 + |name| + |list| && m < |t|
    requires t[0] == '<' && t[1..1 + |name|] == name && t[1 + |name|] == ' '
    requires t[2 + |name|..m] == list
    requires t[m] == '>' || (t[m] == '/' && m + 1 < |t| && t[m + 1] == '>')
    ensures t[m] == '>' ==> StartTag(t, 0) == Opened(name, ReadBack(attributes), m + 1, false)
    ensures t[m] == '/' ==> StartTag(t, 0) == SelfClosed(Element(name, "", ReadBack(attributes), []), m + 2)
  {
    NameThenLoop(t, name);
    var n := 1 + |name|;
    LoopOverWrittenList(t, name, [], n + 1, ' ', false, n, attributes, m);
    assert [] + ReadBack(attributes) == ReadBack(attributes);
    assert TagEnd(t, m, name, ReadBack(attributes)) == StartTag(t, 0);
  }

  /** A start tag with a readable name and no attributes, `<name>` or
      `<name/>`, is read back as that name and nothing else. */
  lemma BareStartTag(t: string, name: string)
    requires NoNameStop(name)
    requires 1 + |name| < |t| && t[0] == '<' && t[1..1 + |name|] == name
    requires t[1 + |name|] == '>' || (t[1 + |name|] == '/' && 2 + |name| < |t| && t[2 + |name|] == '>')
    ensures t[1 + |name|] == '>' ==> StartTag(t, 0) == Opened(name, [], 2 + |name|, false)
    ensures t[1 + |name|] == '/' ==> StartTag(t, 0) == SelfClosed(Element(name, "", [], []), 3 + |name|)
  {
    NameThenLoop(t, name);
    var n := 1 + |name|;
    assert TagRound(t, name, [], n + 1, t[n], false) == TagDecide(t, name, [], n + 1, t[n], false);
  }

  /** An opening tag as the element writer writes it, followed by `/>` or
      by anything that starts with `>`, is read back with the attributes'
      values moved into their names. */
  lemma OpenTagReadsBack(e: Element, tail: string)
    requires NoNameStop(e.name) && AllReadable(e.attributes)
    requires tail == "/>" || (tail != [] && tail[0] == '>')
    ensures tail == "/>" ==>
              StartTag(OpenTag(e) + tail, 0) == SelfClosed(Element(e.name, "", ReadBack(e.attributes), []), |OpenTag(e)| + 2)
    ensures tail[0] == '>' ==>
              StartTag(OpenTag(e) + tail, 0) == Opened(e.name, ReadBack(e.attributes), |OpenTag(e)| + 1, false)
  {
    if e.attributes == [] {
      BareOpenTag(e, tail);
    } else {
      ListedOpenTag(e, tail);
    }
  }

  /** `OpenTagReadsBack` for an element without attributes. */
  lemma BareOpenTag(e: Element, tail: string)
    requires NoNameStop(e.name) && e.attributes == []
    requires tail == "/>" || (tail != [] && tail[0] == '>')
    ensures tail == "/>" ==>
              StartTag(OpenTag(e) + tail, 0) == SelfClosed(Element(e.name, "", [], []), |OpenTag(e)| + 2)
    ensures tail[0] == '>' ==> StartTag(OpenTag(e) + tail, 0) == Opened(e.name, [], |OpenTag(e)| + 1, false)
  {
    var t := "<" + e.name + tail;
    assert OpenTag(e) + tail == t;
    assert t[1..1 + |e.name|] == e.name;
    BareStartTag(t, e.name);
  }

  /** `OpenTagReadsBack` for an element with attributes. */
  lemma ListedOpenTag(e: Element, tail: string)
    requires NoNameStop(e.name) && AllReadable(e.attributes) && e.attributes != []
    requires tail == "/>" || (tail != [] && tail[0] == '>')
    ensures tail == "/>" ==>
              StartTag(OpenTag(e) + tail, 0) == SelfClosed(Element(e.name, "", ReadBack(e.attributes), []), |OpenTag(e)| + 2)
    ensures tail[0] == '>' ==>
              StartTag(OpenTag(e) + tail, 0) == Opened(e.name, ReadBack(e.attributes), |OpenTag(e)| + 1, false)
  {
    var list := AttributeList(e.attributes);
    var t := OpenTag(e) + tail;
    assert t == "<" + e.name + " " + list + tail;
    SpacedStartTag(t, e.name, list, e.attributes, tail, |OpenTag(e)|);
  }

  /** A start tag `<name list` followed by `/>` or by anything that starts
      with `>`, over a written attribute list, is read back with the
      attributes' values moved into their names. */
  lemma SpacedStartTag(t: string, name: string, list: string, attributes: seq<Attribute>, tail: string, m: nat)
    requires NoNameStop(name) && AllReadable(attributes) && list == AttributeList(attributes)
    requires tail == "/>" || (tail != [] && tail[0] == '>')
    requires t == "<" + name + " " + list + tail && m == 2 + |name| + |list|
    ensures tail == "/>" ==> StartTag(t, 0) == SelfClosed(Element(name, "", ReadBack(attributes), []), m + 2)
    ensures tail[0] == '>' ==> StartTag(t, 0) == Opened(name, ReadBack(attributes), m + 1, false)
  {
    SpacedTagPieces(name, list, tail);
    StartTagOverList(t, name, list, attributes, m);
  }

  /** What the start-tag reader makes of a written element with a readable
      name and readable attributes: a self-closed element carrying the
      attributes with their values moved into their names when the element
      is empty, and otherwise an opened tag with the same attributes, ended
      by the `>` that closes the written opening tag. */
  lemma WrittenElementReadsBack(e: Element)
    requires NoNameStop(e.name) && AllReadable(e.attributes)
    ensures e.body == [] && e.children == [] ==>
              StartTag(WriteElement(e).text, 0) ==
              SelfClosed(Element(e.name, "", ReadBack(e.attributes), []), |WriteElement(e).text|)
    ensures e.body != [] || e.children != [] ==>
              StartTag(WriteElement(e).text, 0) == Opened(e.name, ReadBack(e.attributes), |OpenTag(e)| + 1, false)
  {
    WriteElementCases(e);
    if e.body == [] && e.children == [] {
      OpenTagReadsBack(e, "/>");
    } else if WriteElement(e).ok {
      OpenTagReadsBack(e, "></" + e.name + ">");
    } else {
      OpenTagReadsBack(e, ">");
    }
  }

  /** The pieces of `<name list rest`, by position. */
  lemma SpacedTagPieces(name: string, list: string, rest: string)
    requires rest != []
    ensures var t := "<" + name + " " + list + rest;
            var m := 2 + |name| + |list|;
            m < |t| && t[0] == '<' && t[1..1 + |name|] == name && t[1 + |name|] == ' ' &&
            t[2 + |name|..m] == list && t[m] == rest[0] && (|rest| > 1 ==> t[m + 1] == rest[1])
  {
  }

  /** A non-empty written object is read back as an opened tag with the
      object's name, carrying one attribute per scalar entry, named by the
      entry's name followed by its text, with an empty value; its array and
      object entries lie past the tag. */
  lemma WrittenObjectReadsBack(name: string, entries: seq<Entry>, f: Formatter)
    requires NoNameStop(name) && entries != []
    requires AllReadable(AsAttributes(Scalars(entries), f))
    ensures var r := StartTag(WriteObject(name, entries, f), 0);
            r.Opened? && r.name == name && r.attributes == ReadBack(AsAttributes(Scalars(entries), f)) && !r.peeked &&
            r.next == 3 + |name| + |ObjectAttributes(entries, f)|
  {
    var t, list := WriteObject(name, entries, f), ObjectAttributes(entries, f);
    var tail := ">" + ObjectTags(entries, f) + "</" + name + ">";
    ObjectAttributesAsList(entries, f);
    ObjectText(name, entries, f, t, list, tail);
    SpacedStartTag(t, name, list, AsAttributes(Scalars(entries), f), tail, 2 + |name| + |list|);
  }

  /** A written non-empty object is its opening tag up to the attribute
      list, then `>`, its element pass and its closing tag. */
  lemma ObjectText(name: string, entries: seq<Entry>, f: Formatter, t: string, list: string, tail: string)
    requires entries != [] && t == WriteObject(name, entries, f) && list == ObjectAttributes(entries, f)
    requires tail == ">" + ObjectTags(entries, f) + "</" + name + ">"
    ensures t == "<" + name + " " + list + tail
  {
  }

  /** The pieces of a written non-empty array's opening tag, by position. */
  lemma ArrayTagPieces(name: string, items: seq<GenericValue>, f: Formatter)
    requires items != []
    ensures var t := WriteArray(name, items, f);
            1 + |name| < |t| && t[0] == '<' && t[1..1 + |name|] == name && t[1 + |name|] == '>'
  {
    var t := WriteArray(name, items, f);
    var head := "<" + name + ">";
    assert t == head + ArrayItems(items, f) + "</" + name + ">";
    assert t[..|head|] == head;
    assert t[1..1 + |name|] == head[1..1 + |name|];
  }

  /** A non-empty written array is read back as an opened tag with the
      array's name and no attributes. */
  lemma WrittenArrayReadsBack(name: string, items: seq<GenericValue>, f: Formatter)
    requires NoNameStop(name) && items != []
    ensures StartTag(WriteArray(name, items, f), 0) == Opened(name, [], 2 + |name|, false)
  {
    ArrayTagPieces(name, items, f);
    BareStartTag(WriteArray(name, items, f), name);
  }

  /** An empty array and an empty object are read back as the empty element
      with their name, which converts to `Null`: neither comes back as what
      was written. */
  lemma EmptyContainersReadBackAsNull(name: string, f: Formatter)
    requires NoNameStop(name)
    ensures StartTag(WriteArray(name, [], f), 0) == SelfClosed(Element(name, "", [], []), 3 + |name|)
    ensures StartTag(WriteObject(name, [], f), 0) == SelfClosed(Element(name, "", [], []), 3 + |name|)
    ensures ElementToGenericValue(Element(name, "", [], [])) == Null
  {
    EmptyContainers(name, f);
    WrittenElementReadsBack(Element(name, "", [], []));
    assert ReadBack([]) == [];
  }

  /** A written empty element with readable attributes converts, once read
      back, to an object with one `Null` entry per attribute, named by the
      attribute's name followed by its value: every value written is lost. */
  lemma WrittenAttributesConvertToNulls(e: Element)
    requires NoNameStop(e.name) && AllReadable(e.attributes)
    requires e.body == [] && e.children == [] && e.attributes != []
    ensures StartTag(WriteElement(e).text, 0).SelfClosed?
    ensures var v := ElementToGenericValue(StartTag(WriteElement(e).text, 0).element);
            v.Object? && |v.entries| == |e.attributes| &&
            forall i :: 0 <= i < |e.attributes| ==>
              v.entries[i] == Entry(e.attributes[i].name + e.attributes[i].value, Null)
  {
    WrittenElementReadsBack(e);
    var read := Element(e.name, "", ReadBack(e.attributes), []);
    ObjectLayout(read);
    assert BodyToGenericValue("") == Null;
  }
}
