/**
 * The query capability the property mappers consume. The XML parse, the
 * namespace registration and the XPath evaluation are not modelled: a
 * document is given by what its queries return.
 */
module XmpQuery {
  import opened Wrappers

  /**
   * An `rdf:Description` node: its attributes in the exif namespace
   * (`http://ns.adobe.com/exif/1.0/`), by local name, and whether it also
   * carries attributes of other namespaces.
   */
  datatype Description = Description(exif: map<string, string>, otherAttributes: bool)
  {
    /** DOMNode::hasAttributes */
    predicate HasAttributes()
    {
      otherAttributes || exif != map[]
    }

    /** getNamedItemNS on the exif namespace: the attribute's value, or null. */
    function ExifAttribute(name: string): Option<string>
    {
      if name in exif then Some(exif[name]) else None
    }
  }

  /** The XPath queries the mappers evaluate. */
  datatype Query =
    | DcListItems(entity: string)   // //dc:<entity>//rdf:li
    | DcElement(name: string)       // //dc:<name>
    | ExifElement(name: string)     // //exif:<name>

  /**
   * A document as seen through XPath with the prefixes `dc`, `rdf` and
   * `exif` registered: `results` holds, for each query that matches
   * anything, the values of the matched nodes in document order, and
   * `descriptions` lists the nodes matched by `//rdf:Description` in
   * document order.
   */
  datatype XPath = XPath(results: map<Query, seq<string>>, descriptions: seq<Description>)
  {
    /** DOMXPath::query: the values of the matched nodes, none for a query missing from `results`. */
    function Nodes(q: Query): seq<string>
    {
      if q in results then results[q] else []
    }
  }

  /**
   * The value a variable holds after a loop that overwrites it with each of
   * `values` in turn, starting from `start`: the last match wins.
   */
  function LastOr(values: seq<string>, start: string): string
  {
    if values == [] then start else values[|values| - 1]
  }

  /**
   * A PHP variable meant for a date, which holds in turn the raw string and
   * then null, `false` (a conversion that failed) or a converted date.
   */
  datatype DateValue<D> = NullDate | FalseDate | TextDate(text: string) | ParsedDate(date: D)

  /** The value a date conversion leaves: the date, or `false` when it fails. */
  function Converted<D>(conversion: Option<D>): DateValue<D>
  {
    match conversion
    case None => FalseDate
    case Some(d) => ParsedDate(d)
  }
}
