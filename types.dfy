/** The data model of the XML format: attributes, parsed elements and the
    dynamically-typed generic value that elements are converted to and from.
    Text is a byte string: each `char` stands for one C++ `char`, one byte of
    the stream. */
module XmlTypes {

  /** A tag attribute: its name and its (unescaped) value text. */
  datatype Attribute = Attribute(name: string, value: string)

  /** What a default-constructed `Attribute` holds: both strings empty. */
  const DefaultAttribute: Attribute := Attribute("", "")

  /** A parsed element: tag name, text body, attributes and child elements,
      the last two in document order. */
  datatype Element = Element(name: string, body: string, attributes: seq<Attribute>, children: seq<Element>)

  /** What a default-constructed `Element` holds; the reader returns it on every failure. */
  const DefaultElement: Element := Element("", "", [], [])

  /** The double that a text converts to. The model never evaluates the
      conversion; it only remembers which text was converted. */
  datatype DoubleText = DoubleOf(text: string)

  /** The generic value; an object is an ordered list of named entries that
      keeps insertion order and does not merge duplicate names. */
  datatype GenericValue =
    | Null
    | Char(c: char)
    | Bool(b: bool)
    | Unsigned(u: nat)
    | Signed(i: int)
    | Double(d: DoubleText)
    | Str(s: string)
    | Array(items: seq<GenericValue>)
    | Object(entries: seq<Entry>)
  {
    /** True for every variant that is neither an array nor an object. */
    predicate IsScalar() {
      !Array? && !Object?
    }
  }

  /** One named entry of an object. */
  datatype Entry = Entry(name: string, value: GenericValue)

  /** `std::isspace` in the C locale: space, tab, line feed, vertical tab,
      form feed and carriage return. */
  predicate IsSpace(c: char) {
    c == ' ' || c == '\t' || c == '\n' || c == '\U{000B}' || c == '\U{000C}' || c == '\r'
  }
}
