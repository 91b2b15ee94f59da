/** What the reader computes, as functions over the input text and a cursor
    index: the whitespace skip, the attribute scan and the start-tag state
    machine. The methods in `XmlReader` are proved to compute these. */
module XmlReaderSpec {
  import opened XmlTypes

  /** The result of a read: the value and the index just past what was read,
      or one of the two ways the read has no modelled result. `PeekPastEnd`:
      the reader peeks at the end of the input, whose result the stream does
      not define. `OutOfFuel`: the body loop ran more iterations than allowed. */
  datatype Scan<T> = Scanned(value: T, next: nat) | PeekPastEnd | OutOfFuel

  /** The first index at or after `i` that holds no whitespace, or `|s|`. */
  function SkipSpaces(s: string, i: nat): (k: nat)
    requires i <= |s|
    ensures i <= k <= |s|
    decreases |s| - i
  {
    if i == |s| || !IsSpace(s[i]) then i else SkipSpaces(s, i + 1)
  }

  /** `SkipSpaces` finds the first non-whitespace character: everything
      before it is whitespace. */
  lemma {:induction false} SkipSpacesFirst(s: string, i: nat)
    requires i <= |s|
    ensures forall j :: i <= j < SkipSpaces(s, i) ==> IsSpace(s[j])
    ensures SkipSpaces(s, i) < |s| ==> !IsSpace(s[SkipSpaces(s, i)])
    decreases |s| - i
  {
    if i < |s| && IsSpace(s[i]) {
      SkipSpacesFirst(s, i + 1);
    }
  }

  /** The first index at or after `i` that holds `ch`, or `|s|`. */
  function FindChar(s: string, i: nat, ch: char): (k: nat)
    requires i <= |s|
    ensures i <= k <= |s|
    decreases |s| - i
  {
    if i == |s| || s[i] == ch then i else FindChar(s, i + 1, ch)
  }

  /** `FindChar` is the index before which no `ch` occurs and at which `ch`
      occurs, unless it is the end; and it is the only such index. */
  lemma {:induction false} FindCharAt(s: string, i: nat, k: nat, ch: char)
    requires i <= k <= |s|
    ensures (forall j :: i <= j < k ==> s[j] != ch) && (k < |s| ==> s[k] == ch) <==> FindChar(s, i, ch) == k
    decreases |s| - i
  {
    if i < |s| && s[i] != ch && i < k {
      FindCharAt(s, i + 1, k, ch);
    }
  }

  /** The characters that end a start-tag name. */
  predicate IsNameStop(c: char) {
    IsSpace(c) || c == '/' || c == '>'
  }

  /** No character of `name` ends a tag name. */
  predicate NoNameStop(name: string) {
    forall k :: 0 <= k < |name| ==> !IsNameStop(name[k])
  }

  /** The first index at or after `i` that ends a tag name, or `|s|`. */
  function FindNameStop(s: string, i: nat): (k: nat)
    requires i <= |s|
    ensures i <= k <= |s|
    decreases |s| - i
  {
    if i == |s| || IsNameStop(s[i]) then i else FindNameStop(s, i + 1)
  }

  /** `FindNameStop` is the index before which nothing ends a name and at
      which something does, unless it is the end; and it is the only one. */
  lemma {:induction false} FindNameStopAt(s: string, i: nat, k: nat)
    requires i <= k <= |s|
    ensures (forall j :: i <= j < k ==> !IsNameStop(s[j])) && (k < |s| ==> IsNameStop(s[k])) <==>
            FindNameStop(s, i) == k
    decreases |s| - i
  {
    if i < |s| && !IsNameStop(s[i]) && i < k {
      FindNameStopAt(s, i + 1, k);
    }
  }

  /** An attribute read and the index just past it. */
  datatype AttributeAt = AttributeAt(attribute: Attribute, next: nat)

  /** The attribute read from index `pos`, with the index after it. Leading
      whitespace is skipped; the name is every character up to `=`; a `"`
      must follow at once; the quoted characters are then appended to the
      name, so the value stays empty. Every failure gives the default
      attribute. */
  function AttributeScan(s: string, pos: nat): (r: AttributeAt)
    requires pos <= |s|
    ensures r.next <= |s|
    ensures r.next == |s| || r.next >= pos + 2
    ensures r.attribute.value == ""
  {
    var q := SkipSpaces(s, pos);
    if q == |s| then AttributeAt(DefaultAttribute, q)
    else
      var e := FindChar(s, q, '=');
      if e == |s| || e + 1 == |s| then AttributeAt(DefaultAttribute, |s|)
      else if s[e + 1] != '"' then AttributeAt(DefaultAttribute, e + 2)
      else
        var f := FindChar(s, e + 2, '"');
        if f == |s| then AttributeAt(DefaultAttribute, |s|)
        else AttributeAt(Attribute(s[q..e] + s[e + 2..f], ""), f + 1)
  }

  /** The attribute scan when every search succeeds: the name is the text
      from the first non-whitespace character to the `=`, followed by the
      quoted text, and the scan ends past the closing quote. */
  lemma AttributeScanFound(s: string, pos: nat, q: nat, e: nat, f: nat)
    requires pos <= |s| && q == SkipSpaces(s, pos) && q < |s|
    requires e == FindChar(s, q, '=') && e + 1 < |s| && s[e + 1] == '"'
    requires f == FindChar(s, e + 2, '"') && f < |s|
    ensures AttributeScan(s, pos) == AttributeAt(Attribute(s[q..e] + s[e + 2..f], ""), f + 1)
  {
  }

  /** Where the start tag ends. `SelfClosed`: the tag ended with `/>` and
      this is the element. `Opened`: the tag ended with `>` at `next`, or at
      `next - 1` when the reader has only peeked at it. `TagFailed`: the
      default element is returned with the cursor at `next`. */
  datatype StartTagOutcome =
    | SelfClosed(element: Element, next: nat)
    | Opened(name: string, attributes: seq<Attribute>, next: nat, peeked: bool)
    | TagFailed(next: nat)
    | TagPeekPastEnd

  /** A consistent reader state: `c` is the character just read, at `p - 1`,
      or, after a peek, the character at `p` itself. */
  predicate Cursor(s: string, p: nat, c: char, peeked: bool) {
    0 < p <= |s| &&
    (peeked ==> p < |s| && s[p] == c) &&
    (!peeked ==> s[p - 1] == c)
  }

  /** The measure that the attribute loop decreases. */
  function TagMeasure(s: string, p: nat, peeked: bool): int {
    2 * (|s| - p) + (if peeked then 1 else 0)
  }

  /** Every attribute the attribute scan returns has an empty value. */
  predicate ValuesEmpty(attrs: seq<Attribute>) {
    forall i :: 0 <= i < |attrs| ==> attrs[i].value == ""
  }

  /** What one round of the attribute loop leaves: the start tag's outcome,
      or the state in which the next round begins. */
  datatype TagRoundResult =
    | Done(outcome: StartTagOutcome)
    | Again(attributes: seq<Attribute>, p: nat, c: char, peeked: bool)

  /** The decision part of a round, on the first non-whitespace character:
      `/` must be followed by `>`; `>` ends the tag; anything else starts an
      attribute, read from the index before the cursor, after which the next
      character is peeked. */
  function TagDecide(s: string, name: string, attrs: seq<Attribute>, p: nat, c: char, peeked: bool): (r: TagRoundResult)
    requires Cursor(s, p, c, peeked) && !IsSpace(c)
    ensures r.Again? ==> Cursor(s, r.p, r.c, r.peeked) && TagMeasure(s, r.p, r.peeked) < TagMeasure(s, p, peeked)
  {
    if c == '/' then
      if p == |s| then Done(TagFailed(|s|))
      else if s[p] != '>' then Done(TagFailed(p + 1))
      else Done(SelfClosed(Element(name, "", attrs, []), p + 1))
    else if c == '>' then Done(Opened(name, attrs, p, peeked))
    else
      var AttributeAt(a, q) := AttributeScan(s, p - 1);
      if q == |s| then Done(TagPeekPastEnd)
      else Again(attrs + [a], q, s[q], true)
  }

  /** One round of the attribute loop: skip whitespace in `c` and after it,
      failing at the end of the input, then decide on the next character. */
  function TagRound(s: string, name: string, attrs: seq<Attribute>, p: nat, c: char, peeked: bool): (r: TagRoundResult)
    requires Cursor(s, p, c, peeked)
    ensures r.Again? ==> Cursor(s, r.p, r.c, r.peeked) && TagMeasure(s, r.p, r.peeked) < TagMeasure(s, p, peeked)
  {
    if IsSpace(c) then
      var k := SkipSpaces(s, p);
      if k == |s| then Done(TagFailed(|s|))
      else
        SkipSpacesFirst(s, p);
        TagDecide(s, name, attrs, k + 1, s[k], false)
    else TagDecide(s, name, attrs, p, c, peeked)
  }

  /** What a round promises: a round that goes on has moved the cursor and
      kept every attribute value empty; a round that ends the tag ends it
      within the text, past `p`, with `/>` behind a self-closed element and
      `>` at an opened tag's cursor. */
  predicate RoundKeeps(s: string, name: string, attrs: seq<Attribute>, p: nat, r: TagRoundResult) {
    (r.Again? ==> r.p > p && (ValuesEmpty(attrs) ==> ValuesEmpty(r.attributes))) &&
    (r.Done? ==> EndsWell(s, name, attrs, p, r.outcome))
  }

  /** The facts about a start tag's outcome that hold once the attribute
      loop has reached `p` with the attributes `attrs`. */
  predicate EndsWell(s: string, name: string, attrs: seq<Attribute>, p: nat, o: StartTagOutcome) {
    ((o.SelfClosed? || o.TagFailed?) ==> p <= o.next <= |s|) &&
    (o.SelfClosed? ==>
       o.element.name == name && o.element.body == "" && o.element.children == [] &&
       (ValuesEmpty(attrs) ==> ValuesEmpty(o.element.attributes)) &&
       2 <= o.next && s[o.next - 2] == '/' && s[o.next - 1] == '>') &&
    (o.Opened? ==> o.name == name && o.next >= p && Cursor(s, o.next, '>', o.peeked))
  }

  /** `RoundKeeps` for the decision part of a round. */
  lemma DecideKeeps(s: string, name: string, attrs: seq<Attribute>, p: nat, c: char, peeked: bool)
    requires Cursor(s, p, c, peeked) && !IsSpace(c)
    ensures RoundKeeps(s, name, attrs, p, TagDecide(s, name, attrs, p, c, peeked))
  {
    if c != '/' && c != '>' {
      var r := AttributeScan(s, p - 1);
      if r.next < |s| {
        assert ValuesEmpty(attrs) ==> ValuesEmpty(attrs + [r.attribute]) by {
          if ValuesEmpty(attrs) {
            forall i | 0 <= i < |attrs| + 1 ensures (attrs + [r.attribute])[i].value == "" {
              if i < |attrs| {
                assert (attrs + [r.attribute])[i] == attrs[i];
              }
            }
          }
        }
      }
    }
  }

  /** `RoundKeeps` for a whole round. */
  lemma RoundKeepsAll(s: string, name: string, attrs: seq<Attribute>, p: nat, c: char, peeked: bool)
    requires Cursor(s, p, c, peeked)
    ensures RoundKeeps(s, name, attrs, p, TagRound(s, name, attrs, p, c, peeked))
  {
    if IsSpace(c) {
      var k := SkipSpaces(s, p);
      if k < |s| {
        SkipSpacesFirst(s, p);
        DecideKeeps(s, name, attrs, k + 1, s[k], false);
      }
    } else {
      DecideKeeps(s, name, attrs, p, c, peeked);
    }
  }

  /** The attribute loop: rounds until one of them ends the start tag. */
  function TagLoop(s: string, name: string, attrs: seq<Attribute>, p: nat, c: char, peeked: bool): (r: StartTagOutcome)
    requires Cursor(s, p, c, peeked)
    ensures r.SelfClosed? ==> r.element.name == name && r.element.body == "" && r.element.children == []
    ensures r.Opened? ==> r.name == name
    decreases TagMeasure(s, p, peeked)
  {
    match TagRound(s, name, attrs, p, c, peeked)
    case Done(outcome) => outcome
    case Again(attrs', p', c', peeked') => TagLoop(s, name, attrs', p', c', peeked')
  }

  /** The outcome of the attribute loop ends well, round after round. */
  lemma {:induction false} LoopEndsWell(s: string, name: string, attrs: seq<Attribute>, p: nat, c: char, peeked: bool)
    requires Cursor(s, p, c, peeked)
    ensures EndsWell(s, name, attrs, p, TagLoop(s, name, attrs, p, c, peeked))
    decreases TagMeasure(s, p, peeked)
  {
    RoundKeepsAll(s, name, attrs, p, c, peeked);
    match TagRound(s, name, attrs, p, c, peeked)
    case Done(outcome) =>
    case Again(attrs', p', c', peeked') =>
      LoopEndsWell(s, name, attrs', p', c', peeked');
  }

  /** The start tag read from `pos`: whitespace, `<`, the name up to a
      whitespace, `/` or `>`, then the attribute loop. */
  function StartTag(s: string, pos: nat): (r: StartTagOutcome)
    requires pos <= |s|
    ensures (r.SelfClosed? || r.Opened?) ==> SkipSpaces(s, pos) < |s| && s[SkipSpaces(s, pos)] == '<'
  {
    var q := SkipSpaces(s, pos);
    if q == |s| then TagFailed(q)
    else if s[q] != '<' then TagFailed(q + 1)
    else
      var n := FindNameStop(s, q + 1);
      if n == |s| then TagFailed(|s|)
      else TagLoop(s, s[q + 1..n], [], n + 1, s[n], false)
  }

  /** Past the `<` and a name ended within the text, the start tag is the
      attribute loop from the character that ended the name. */
  lemma StartTagEntersLoop(s: string, pos: nat, q: nat, n: nat, name: string, c: char)
    requires pos <= |s| && q == SkipSpaces(s, pos) && q < |s| && s[q] == '<'
    requires n == FindNameStop(s, q + 1) && n < |s| && name == s[q + 1..n] && c == s[n]
    ensures Cursor(s, n + 1, c, false)
    ensures StartTag(s, pos) == TagLoop(s, name, [], n + 1, c, false)
  {
  }

  /** Where a start tag read from `pos` ends: a failure or a self-closed
      element ends within the text and past `pos` unless `pos` is the end;
      a self-closed element has no body, no children, a name without
      whitespace, `/` or `>`, and attributes whose values are all empty, and
      its tag ends with `/>`; an opened tag has a name of the same kind and
      its `>` at the cursor, past the `<` and the first character after it. */
  lemma StartTagEnds(s: string, pos: nat)
    requires pos <= |s|
    ensures var r := StartTag(s, pos);
            (r.SelfClosed? || r.TagFailed?) ==> pos <= r.next <= |s| && (pos < |s| ==> pos < r.next)
    ensures var r := StartTag(s, pos);
            r.SelfClosed? ==>
              r.element.body == "" && r.element.children == [] &&
              ValuesEmpty(r.element.attributes) && NoNameStop(r.element.name) &&
              2 <= r.next <= |s| && s[r.next - 2] == '/' && s[r.next - 1] == '>'
    ensures var r := StartTag(s, pos);
            r.Opened? ==> NoNameStop(r.name) && Cursor(s, r.next, '>', r.peeked) && r.next >= SkipSpaces(s, pos) + 2
  {
    var r := StartTag(s, pos);
    var q := SkipSpaces(s, pos);
    if q < |s| && s[q] == '<' {
      var n := FindNameStop(s, q + 1);
      if n < |s| {
        var name := s[q + 1..n];
        StartTagName(s, q, n);
        StartTagEntersLoop(s, pos, q, n, name, s[n]);
        LoopEndsWell(s, name, [], n + 1, s[n], false);
      }
    }
  }

  /** The name a start tag reads between `<` at `q` and the stop at `n` has
      no whitespace, `/` or `>` in it, and it is the name of a self-closed
      element read there. */
  lemma StartTagName(s: string, q: nat, n: nat)
    requires q < n < |s| && n == FindNameStop(s, q + 1)
    ensures NoNameStop(s[q + 1..n])
  {
    FindNameStopAt(s, q + 1, n);
    var name := s[q + 1..n];
    forall k | 0 <= k < |name| ensures !IsNameStop(name[k]) {
      assert name[k] == s[q + 1 + k];
    }
  }

  /** Anything but `<` after the leading whitespace fails at once, with the
      cursor just past that character. */
  lemma StartTagNeedsAngle(s: string, pos: nat)
    requires pos <= |s|
    requires SkipSpaces(s, pos) < |s| && s[SkipSpaces(s, pos)] != '<'
    ensures StartTag(s, pos) == TagFailed(SkipSpaces(s, pos) + 1)
  {
  }
}
