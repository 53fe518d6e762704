/**
 * The Dublin Core property set: list-valued fields collect the list items
 * under their element in document order, scalar fields keep the last
 * matching node, and the title falls back to the bare title elements.
 */
module DublinCore {
  import opened Wrappers
  import opened XmpQuery

  /**
   * The title rule: the list items under `dc:title` when there are any,
   * otherwise the values of the `dc:title` elements themselves.
   */
  function TitleValues(xp: XPath): (r: seq<string>)
    ensures |r| > 0 <==> |xp.Nodes(DcListItems("title"))| > 0 || |xp.Nodes(DcElement("title"))| > 0
    ensures |xp.Nodes(DcListItems("title"))| > 0 ==> r == xp.Nodes(DcListItems("title"))
    ensures |xp.Nodes(DcListItems("title"))| == 0 ==> r == xp.Nodes(DcElement("title"))
  {
    var items := xp.Nodes(DcListItems("title"));
    if |items| == 0 then xp.Nodes(DcElement("title")) else items
  }

  class DublinCoreProperties {
    var xPath: Option<XPath>
    var contributor: seq<string>
    var coverage: string
    var creator: seq<string>
    var date: seq<string>
    var description: seq<string>
    var format: string
    var identifier: string
    var language: seq<string>
    var publisher: seq<string>
    var relation: seq<string>
    var rights: seq<string>
    var source: string
    var subject: seq<string>
    var title: seq<string>
    /** `dc:type`; never filled from the document. */
    var dcType: seq<string>

    /** Sets the defaults, then retrieves every property from `xp`. */
    constructor (xp: XPath)
      ensures xPath.None?
      ensures contributor == xp.Nodes(DcListItems("contributor"))
      ensures coverage == LastOr(xp.Nodes(DcElement("coverage")), "")
      ensures creator == xp.Nodes(DcListItems("creator"))
      ensures date == xp.Nodes(DcListItems("date"))
      ensures description == xp.Nodes(DcListItems("description"))
      ensures format == LastOr(xp.Nodes(DcElement("format")), "")
      ensures identifier == LastOr(xp.Nodes(DcElement("identifier")), "")
      ensures language == xp.Nodes(DcListItems("language"))
      ensures publisher == xp.Nodes(DcListItems("publisher"))
      ensures relation == xp.Nodes(DcListItems("relation"))
      ensures rights == xp.Nodes(DcListItems("rights"))
      ensures source == LastOr(xp.Nodes(DcListItems("source")), "")
      ensures subject == xp.Nodes(DcListItems("subject"))
      ensures title == TitleValues(xp)
      ensures dcType == []
    {
      contributor := [];
      coverage := "";
      creator := [];
      date := [];
      description := [];
      format := "";
      identifier := "";
      language := [];
      publisher := [];
      relation := [];
      rights := [];
      source := "";
      subject := [];
      title := [];
      dcType := [];
      xPath := Some(xp);
      new;
      Init();
    }

    /**
     * The values of all `//dc:<entity>//rdf:li` nodes, in document order,
     * with nothing dropped, merged or reordered. The XPath instance the
     * object holds is passed in as `xp`.
     */
    static method GetArray(xp: XPath, entity: string) returns (tmp: seq<string>)
      ensures tmp == xp.Nodes(DcListItems(entity))
    {
      var nodes := xp.Nodes(DcListItems(entity));
      tmp := [];
      for k := 0 to |nodes|
        invariant tmp == nodes[..k]
      {
        tmp := tmp + [nodes[k]];
      }
      assert nodes[..|nodes|] == nodes;
    }

    /**
     * A loop that overwrites a scalar with each node matched by `query` in
     * turn, starting from `current`: the last match wins, and no match
     * keeps `current`.
     */
    static method LastMatch(xp: XPath, query: Query, current: string) returns (value: string)
      ensures value == LastOr(xp.Nodes(query), current)
    {
      var nodes := xp.Nodes(query);
      value := current;
      for k := 0 to |nodes|
        invariant value == LastOr(nodes[..k], current)
      {
        value := nodes[k];
      }
      assert nodes[..|nodes|] == nodes;
    }

    /**
     * Fills every field from the query results, then drops the XPath
     * reference. Scalars are overwritten by each matching node in turn, so
     * they keep their value when nothing matches; `dcType` is left alone.
     * Each field depends only on the XPath instance, so the steps are
     * grouped in three runs that follow the order of the source.
     */
    method Init()
      requires xPath.Some?
      modifies this
      ensures xPath.None?
      ensures var xp := old(xPath.value);
        && contributor == xp.Nodes(DcListItems("contributor"))
        && coverage == LastOr(xp.Nodes(DcElement("coverage")), old(coverage))
        && creator == xp.Nodes(DcListItems("creator"))
        && date == xp.Nodes(DcListItems("date"))
        && description == xp.Nodes(DcListItems("description"))
        && format == LastOr(xp.Nodes(DcElement("format")), old(format))
        && identifier == LastOr(xp.Nodes(DcElement("identifier")), old(identifier))
        && language == xp.Nodes(DcListItems("language"))
        && publisher == xp.Nodes(DcListItems("publisher"))
        && relation == xp.Nodes(DcListItems("relation"))
        && rights == xp.Nodes(DcListItems("rights"))
        && source == LastOr(xp.Nodes(DcListItems("source")), old(source))
        && subject == xp.Nodes(DcListItems("subject"))
        && title == TitleValues(xp)
      ensures dcType == old(dcType)
    {
      var xp := xPath.value;
      InitFirst(xp);
      InitSecond(xp);
      InitThird(xp);
      // Free the reference to the XPath instance.
      xPath := None;
    }

    /** contributor, coverage, creator, date and description. */
    method InitFirst(xp: XPath)
      modifies this`contributor, this`coverage, this`creator, this`date, this`description
      ensures contributor == xp.Nodes(DcListItems("contributor"))
      ensures coverage == LastOr(xp.Nodes(DcElement("coverage")), old(coverage))
      ensures creator == xp.Nodes(DcListItems("creator"))
      ensures date == xp.Nodes(DcListItems("date"))
      ensures description == xp.Nodes(DcListItems("description"))
    {
      contributor := GetArray(xp, "contributor");
      coverage := LastMatch(xp, DcElement("coverage"), coverage);
      creator := GetArray(xp, "creator");
      date := GetArray(xp, "date");
      description := GetArray(xp, "description");
    }

    /** format, identifier, language, publisher, relation and rights. */
    method InitSecond(xp: XPath)
      modifies this`format, this`identifier, this`language, this`publisher, this`relation, this`rights
      ensures format == LastOr(xp.Nodes(DcElement("format")), old(format))
      ensures identifier == LastOr(xp.Nodes(DcElement("identifier")), old(identifier))
      ensures language == xp.Nodes(DcListItems("language"))
      ensures publisher == xp.Nodes(DcListItems("publisher"))
      ensures relation == xp.Nodes(DcListItems("relation"))
      ensures rights == xp.Nodes(DcListItems("rights"))
    {
      format := LastMatch(xp, DcElement("format"), format);
      identifier := LastMatch(xp, DcElement("identifier"), identifier);
      language := GetArray(xp, "language");
      publisher := GetArray(xp, "publisher");
      relation := GetArray(xp, "relation");
      rights := GetArray(xp, "rights");
    }

    /**
     * source, subject and title; the title falls back to the `dc:title`
     * elements when it has no list items.
     */
    method InitThird(xp: XPath)
      modifies this`source, this`subject, this`title
      ensures source == LastOr(xp.Nodes(DcListItems("source")), old(source))
      ensures subject == xp.Nodes(DcListItems("subject"))
      ensures title == TitleValues(xp)
    {
      source := LastMatch(xp, DcListItems("source"), source);
      subject := GetArray(xp, "subject");
      title := GetArray(xp, "title");
      if |title| == 0 {
        var nodes := xp.Nodes(DcElement("title"));
        for k := 0 to |nodes|
          modifies this`title
          invariant title == nodes[..k]
        {
          title := title + [nodes[k]];
        }
        assert nodes[..|nodes|] == nodes;
      }
    }

    function GetContributor(): seq<string> reads this { contributor }
    function GetCoverage(): string reads this { coverage }
    function GetCreator(): seq<string> reads this { creator }
    function GetDate(): seq<string> reads this { date }
    function GetDescription(): seq<string> reads this { description }
    function GetFormat(): string reads this { format }
    function GetIdentifier(): string reads this { identifier }
    function GetLanguage(): seq<string> reads this { language }
    function GetPublisher(): seq<string> reads this { publisher }
    function GetRelation(): seq<string> reads this { relation }
    function GetRights(): seq<string> reads this { rights }
    function GetSource(): string reads this { source }
    function GetSubject(): seq<string> reads this { subject }
    function GetTitle(): seq<string> reads this { title }
    function GetType(): seq<string> reads this { dcType }
  }
}
