/** The cursor-driven reader. The input stream is the text `s` and an index
    into it: reading a character returns `s[p]` and advances `p`; the end of
    the stream is `p == |s|`; moving the offset back by `k` is `p - k`.
    `peek` returns `s[p]` and leaves `p` where it is. */
module XmlReader {
  import opened XmlTypes
  import opened XmlReaderSpec
  import opened XmlBridge

  /** Skips whitespace from `pos`, leaving the cursor on the first other
      character, or at the end. The source's version always reports success,
      so no flag is returned. */
  method SkipWhitespace(s: string, pos: nat) returns (p: nat)
    requires pos <= |s|
    ensures p == SkipSpaces(s, pos)
  {
    p := pos;
    if p == |s| {
      return;
    }
    var c := s[p];
    p := p + 1;
    while IsSpace(c)
      invariant pos < p <= |s| && c == s[p - 1]
      invariant SkipSpaces(s, p - 1) == SkipSpaces(s, pos)
      decreases |s| - p
    {
      if p == |s| {
        return;
      }
      c := s[p];
      p := p + 1;
    }
    p := p - 1;
  }

  /** The reader's inline loop `while isspace(c)`: while the current
      character is whitespace, read the next one; the end of the stream on
      the way makes the caller fail (`ok` false). */
  method ReadWhileSpace(s: string, p0: nat, c0: char) returns (ok: bool, p: nat, c: char)
    requires p0 <= |s|
    ensures !IsSpace(c0) ==> ok && p == p0 && c == c0
    ensures IsSpace(c0) ==> (ok <==> SkipSpaces(s, p0) < |s|)
    ensures IsSpace(c0) && ok ==> p == SkipSpaces(s, p0) + 1 && c == s[p - 1]
    ensures !ok ==> p == |s|
  {
    p, c := p0, c0;
    while IsSpace(c)
      invariant p0 <= p <= |s|
      invariant !IsSpace(c0) ==> p == p0 && c == c0
      invariant IsSpace(c0) && IsSpace(c) ==> SkipSpaces(s, p) == SkipSpaces(s, p0)
      invariant IsSpace(c0) && !IsSpace(c) ==> p == SkipSpaces(s, p0) + 1 && c == s[p - 1]
      decreases |s| - p
    {
      if p == |s| {
        return false, p, c;
      }
      c := s[p];
      p := p + 1;
    }
    ok := true;
  }

  /** The attribute reader's inline loop `while (c != stop)`: append the
      current character to `name` and read the next one, until `stop` is
      read; the end of the stream on the way makes the caller fail. The
      current character `c0` is the one at `p0 - 1`. */
  method AppendUntil(s: string, p0: nat, c0: char, name0: string, stop: char)
    returns (ok: bool, name: string, p: nat)
    requires 0 < p0 <= |s| && s[p0 - 1] == c0
    ensures ok <==> FindChar(s, p0 - 1, stop) < |s|
    ensures ok ==> p == FindChar(s, p0 - 1, stop) + 1 && name == name0 + s[p0 - 1..p - 1]
    ensures !ok ==> p == |s|
  {
    var c := c0;
    name, p := name0, p0;
    while c != stop
      invariant p0 <= p <= |s| && c == s[p - 1]
      invariant name == name0 + s[p0 - 1..p - 1]
      invariant forall j :: p0 - 1 <= j < p - 1 ==> s[j] != stop
      decreases |s| - p
    {
      if p == |s| {
        FindCharAt(s, p0 - 1, p, stop);
        return false, name, p;
      }
      name := name + [c];
      assert s[p0 - 1..p] == s[p0 - 1..p - 1] + [s[p - 1]];
      c := s[p];
      p := p + 1;
    }
    FindCharAt(s, p0 - 1, p - 1, stop);
    ok := true;
  }

  /** Reads one attribute from `pos` and returns it with the cursor after it. */
  method ReadAttribute(s: string, pos: nat) returns (a: Attribute, p: nat)
    requires pos <= |s|
    ensures AttributeAt(a, p) == AttributeScan(s, pos)
  {
    // skipWhitespace always reports success, so its failure branch is not taken.
    p := SkipWhitespace(s, pos);
    var name: string := "";
    if p == |s| {
      return DefaultAttribute, p;
    }
    ghost var q := p;
    var c := s[p];
    p := p + 1;
    var ok;
    ok, name, p := AppendUntil(s, p, c, name, '=');
    if !ok {
      return DefaultAttribute, p;
    }
    ghost var e := p - 1;
    assert name == s[q..e];
    if p == |s| {
      return DefaultAttribute, p;
    }
    c := s[p];
    p := p + 1;
    if c != '"' {
      return DefaultAttribute, p;
    }
    var value: string := "";
    if p == |s| {
      return DefaultAttribute, p;
    }
    c := s[p];
    p := p + 1;
    // The quoted characters go to the name, not to the value.
    ok, name, p := AppendUntil(s, p, c, name, '"');
    if !ok {
      return DefaultAttribute, p;
    }
    assert name == s[q..e] + s[e + 2..p - 1];
    return Attribute(name, value), p;
  }

  /** The start tag's name loop: until whitespace, `/` or `>` is read,
      append the current character to the name and read the next one; the
      end of the stream on the way makes the caller fail. The current
      character `c0` is the one at `p0 - 1`. */
  method ReadTagName(s: string, p0: nat, c0: char) returns (ok: bool, name: string, p: nat, c: char)
    requires 0 < p0 <= |s| && s[p0 - 1] == c0
    ensures ok <==> FindNameStop(s, p0 - 1) < |s|
    ensures ok ==> p == FindNameStop(s, p0 - 1) + 1 && c == s[p - 1] && name == s[p0 - 1..p - 1]
    ensures !ok ==> p == |s|
  {
    name, p, c := "", p0, c0;
    while !IsNameStop(c)
      invariant p0 <= p <= |s| && c == s[p - 1]
      invariant name == s[p0 - 1..p - 1]
      invariant forall j :: p0 - 1 <= j < p - 1 ==> !IsNameStop(s[j])
      decreases |s| - p
    {
      name := name + [c];
      if p == |s| {
        FindNameStopAt(s, p0 - 1, p);
        return false, name, p, c;
      }
      c := s[p];
      p := p + 1;
    }
    FindNameStopAt(s, p0 - 1, p - 1);
    ok := true;
  }

  /** Reads one element from `pos`. The start tag is read as `StartTag`
      describes. A self-closing tag gives the element; a tag that ends with
      `>` goes on to the body and the end tag, and that path never yields
      anything but the default element. `fuel` bounds the rounds of each
      body loop. */
  method ReadElement(s: string, pos: nat, fuel: nat) returns (o: Scan<Element>)
    requires pos <= |s|
    ensures o.Scanned? ==> pos <= o.next <= |s| && (pos < |s| ==> pos < o.next)
    ensures StartTag(s, pos).SelfClosed? ==>
              o == Scanned(StartTag(s, pos).element, StartTag(s, pos).next)
    ensures StartTag(s, pos).TagFailed? ==> o == Scanned(DefaultElement, StartTag(s, pos).next)
    ensures StartTag(s, pos).TagPeekPastEnd? ==> o == PeekPastEnd
    ensures StartTag(s, pos).Opened? && o.Scanned? ==> o.value == DefaultElement
    decreases |s| - pos, 1
  {
    var t := ReadStartTag(s, pos);
    StartTagEnds(s, pos);
    match t
    case SelfClosed(element, next) =>
      return Scanned(element, next);
    case TagFailed(next) =>
      return Scanned(DefaultElement, next);
    case TagPeekPastEnd =>
      return PeekPastEnd;
    case Opened(name, _, next, peeked) =>
      assert forall k :: 0 <= k < |name| ==> name[k] != '/' by {
        assert NoNameStop(name);
      }
      o := ReadBody(s, next, '>', peeked, SkipSpaces(s, pos), name, fuel);
  }

  /** The start tag: whitespace, the opening `<`, the name up to whitespace,
      `/` or `>`, then the attribute loop. */
  method ReadStartTag(s: string, pos: nat) returns (t: StartTagOutcome)
    requires pos <= |s|
    ensures t == StartTag(s, pos)
  {
    // skipWhitespace always reports success, so its failure branch is not taken.
    var p: nat := SkipWhitespace(s, pos);
    if p == |s| {
      return TagFailed(p);
    }
    var c := s[p];
    p := p + 1;
    if c != '<' {
      return TagFailed(p);
    }
    ghost var q := p - 1;
    assert q == SkipSpaces(s, pos) && s[q] == '<';
    if p == |s| {
      return TagFailed(p);
    }
    c := s[p];
    p := p + 1;
    var ok, name;
    ok, name, p, c := ReadTagName(s, p, c);
    if !ok {
      return TagFailed(p);
    }
    assert p - 1 == FindNameStop(s, q + 1) && name == s[q + 1..p - 1];
    t := ReadAttributes(s, name, p, c);
  }

  /** The start tag's attribute loop, from the character that ended the
      name, one round at a time. */
  method ReadAttributes(s: string, name: string, p0: nat, c0: char) returns (t: StartTagOutcome)
    requires Cursor(s, p0, c0, false)
    ensures t == TagLoop(s, name, [], p0, c0, false)
  {
    var attributes: seq<Attribute>, p: nat, c, peeked := [], p0, c0, false;
    while true
      invariant Cursor(s, p, c, peeked)
      invariant TagLoop(s, name, attributes, p, c, peeked) == TagLoop(s, name, [], p0, c0, false)
      decreases TagMeasure(s, p, peeked)
    {
      var r := AttributeRound(s, name, attributes, p, c, peeked);
      match r
      case Done(outcome) =>
        return outcome;
      case Again(attributes', p', c', peeked') =>
        attributes, p, c, peeked := attributes', p', c', peeked';
    }
  }

  /** One round of the attribute loop: skip whitespace; then `/` must be
      followed by `>`, `>` ends the tag, and anything else starts an
      attribute. The attribute is read from the index before the cursor and
      the character after it is peeked, so `peeked` records whether `c` was
      read or only peeked at. */
  method AttributeRound(s: string, name: string, attributes: seq<Attribute>, p0: nat, c0: char, peeked0: bool)
    returns (r: TagRoundResult)
    requires Cursor(s, p0, c0, peeked0)
    ensures r == TagRound(s, name, attributes, p0, c0, peeked0)
  {
    var peeked := peeked0 && !IsSpace(c0);
    var ok, p, c := ReadWhileSpace(s, p0, c0);
    if !ok {
      return Done(TagFailed(p));
    }
    if c == '/' {
      if p == |s| {
        return Done(TagFailed(p));
      }
      c := s[p];
      p := p + 1;
      if c != '>' {
        return Done(TagFailed(p));
      }
      return Done(SelfClosed(Element(name, "", attributes, []), p));
    } else if c == '>' {
      return Done(Opened(name, attributes, p, peeked));
    } else {
      p := p - 1;
      var a;
      a, p := ReadAttribute(s, p);
      if p == |s| {
        return Done(TagPeekPastEnd);
      }
      c := s[p];
      return Again(attributes + [a], p, c, true);
    }
  }

  /** The body of an element whose start tag ended with `>`: text and child
      elements up to `</`, then the end tag. `lower` is the index of the
      element's `<`; the cursor is past it. Every result is the default
      element, since the end tag never matches. */
  method ReadBody(s: string, p0: nat, c0: char, ghost peeked0: bool, ghost lower: nat, name: string, fuel: nat)
    returns (o: Scan<Element>)
    requires Cursor(s, p0, c0, peeked0) && p0 >= lower + 2
    requires forall k :: 0 <= k < |name| ==> name[k] != '/'
    ensures o.Scanned? ==> o.value == DefaultElement && lower < o.next <= |s|
    decreases |s| - lower, 0
  {
    var p: nat, c := p0, c0;
    ghost var peeked := peeked0;
    var body: string, elements: seq<Element> := "", [];
    var rounds := fuel;
    while true
      invariant Cursor(s, p, c, peeked) && p >= lower + 2
      decreases rounds
    {
      if rounds == 0 {
        return OutOfFuel;
      }
      rounds := rounds - 1;
      ghost var wasSpace := IsSpace(c);
      var ok;
      ok, p, c := ReadWhileSpace(s, p, c);
      if wasSpace {
        peeked := false;
      }
      if !ok {
        return Scanned(DefaultElement, p);
      }
      if c == '<' {
        if p == |s| {
          return Scanned(DefaultElement, p);
        }
        c := s[p];
        p := p + 1;
        if c == '/' {
          p := p - 2;
          break;
        }
        p := p - 2;
        var child := ReadElement(s, p, fuel);
        match child
        case PeekPastEnd =>
          return PeekPastEnd;
        case OutOfFuel =>
          return OutOfFuel;
        case Scanned(element, next) =>
          elements := elements + [element];
          if next == |s| {
            return PeekPastEnd;
          }
          p := next;
          c := s[p];
          peeked := true;
      } else {
        body := body + [c];
        if p == |s| {
          return Scanned(DefaultElement, p);
        }
        c := s[p];
        p := p + 1;
        peeked := false;
      }
    }
    o := ReadEndTag(s, p, name);
  }

  /** The end tag, with the cursor back on the `<` of `</`. The character
      last read is the `/`, so the whitespace loop before `<` does not run
      and the `<` and `/` checks succeed; `c` is `/` again when the end name
      is read, so that loop does not run either and the end name starts with
      `/`. The start name holds no `/`, so the names always differ and the
      default element is returned; the close-tag loop after the comparison
      is never reached. */
  method ReadEndTag(s: string, p0: nat, name: string) returns (o: Scan<Element>)
    requires p0 + 1 < |s| && s[p0] == '<' && s[p0 + 1] == '/'
    requires forall k :: 0 <= k < |name| ==> name[k] != '/'
    ensures o.Scanned? && o.value == DefaultElement && p0 < o.next <= |s|
  {
    var p: nat := p0;
    var c := s[p];
    p := p + 1;
    c := s[p];
    p := p + 1;
    var endName: string := "";
    while !(IsSpace(c) || c == '>')
      invariant p0 + 2 <= p <= |s|
      invariant endName == [] ==> c == '/'
      invariant endName != [] ==> endName[0] == '/'
      decreases |s| - p
    {
      endName := endName + [c];
      if p == |s| {
        return Scanned(DefaultElement, p);
      }
      c := s[p];
      p := p + 1;
    }
    assert name != endName;
    return Scanned(DefaultElement, p);
  }

  /** Reads an element and converts it to a generic value. Since the reader
      succeeds only on self-closing tags, whose attribute values are empty,
      the result is `Null` or an object all of whose entries are `Null`. */
  method ReadValue(s: string, pos: nat, fuel: nat) returns (o: Scan<GenericValue>)
    requires pos <= |s|
    ensures o.Scanned? ==> o.value == Null || (o.value.Object? && AllNull(o.value.entries))
    ensures StartTag(s, pos).SelfClosed? ==>
              o == Scanned(ElementToGenericValue(StartTag(s, pos).element), StartTag(s, pos).next)
    ensures !StartTag(s, pos).SelfClosed? && o.Scanned? ==> o.value == Null
  {
    var e := ReadElement(s, pos, fuel);
    match e
    case Scanned(element, next) =>
      StartTagEnds(s, pos);
      if StartTag(s, pos).SelfClosed? {
        SelfClosedConvertsToNulls(element);
      }
      return Scanned(ElementToGenericValue(element), next);
    case PeekPastEnd =>
      return PeekPastEnd;
    case OutOfFuel =>
      return OutOfFuel;
  }

  /** Every entry of the object is `Null`. */
  predicate AllNull(entries: seq<Entry>) {
    forall i :: 0 <= i < |entries| ==> entries[i].value == Null
  }

  /** An element with no body, no children and only empty attribute values
      converts to `Null` or to an object of `Null` entries. */
  lemma SelfClosedConvertsToNulls(e: Element)
    requires e.body == "" && e.children == [] && ValuesEmpty(e.attributes)
    ensures var v := ElementToGenericValue(e);
            v == Null || (v.Object? && AllNull(v.entries))
  {
    if e.attributes != [] {
      ObjectLayout(e);
      assert BodyToGenericValue("") == Null;
    }
  }
}
