/**
 * The Exif property set: each entity is read from the exif-namespace
 * attributes of the `rdf:Description` nodes and, only when that leaves an
 * empty value, from the `exif:<entity>` elements. The original date is then
 * converted by an uninterpreted date parser.
 */
module Exif {
  import opened Wrappers
  import opened XmpQuery

  /** The entities the property set fills. */
  datatype Entity = DateTimeOriginal | ExifVersion | PixelXDimension | PixelYDimension
  {
    /** The local name of the attribute and of the element. */
    function Name(): string
    {
      match this
      case DateTimeOriginal => "DateTimeOriginal"
      case ExifVersion => "ExifVersion"
      case PixelXDimension => "PixelXDimension"
      case PixelYDimension => "PixelYDimension"
    }
  }

  /** The bytes PHP's `trim` strips by default: space, tab, newline, carriage return, NUL and vertical tab. */
  const TrimChars: set<char> := {' ', '\t', '\n', '\r', '\0', 11 as char}

  /** `ltrim`: drops the leading run of `TrimChars`. */
  function TrimStart(s: string): (r: string)
    ensures |r| <= |s| && r == s[|s| - |r|..]
    ensures forall i :: 0 <= i < |s| - |r| ==> s[i] in TrimChars
    ensures r == [] || r[0] !in TrimChars
  {
    if s != [] && s[0] in TrimChars then TrimStart(s[1..]) else s
  }

  /** `rtrim`: drops the trailing run of `TrimChars`. */
  function TrimEnd(s: string): (r: string)
    ensures |r| <= |s| && r == s[..|r|]
    ensures forall i :: |r| <= i < |s| ==> s[i] in TrimChars
    ensures r == [] || r[|r| - 1] !in TrimChars
  {
    if s != [] && s[|s| - 1] in TrimChars then TrimEnd(s[..|s| - 1]) else s
  }

  /** `trim` */
  function Trim(s: string): string
  {
    TrimEnd(TrimStart(s))
  }

  /** A string trims to nothing exactly when it is made of `TrimChars` only. */
  lemma TrimEmpty(s: string)
    ensures Trim(s) == "" <==> forall i :: 0 <= i < |s| ==> s[i] in TrimChars
  {
    var t := TrimStart(s);
    if Trim(s) == "" {
      forall i | 0 <= i < |s|
        ensures s[i] in TrimChars
      {
        if i >= |s| - |t| {
          assert s[i] == t[i - (|s| - |t|)];
        }
      }
    }
  }

  /** `$node->hasAttributes()` and an exif attribute named `name` on the node. */
  predicate Carries(d: Description, name: string)
  {
    d.HasAttributes() && d.ExifAttribute(name).Some?
  }

  /**
   * The attribute pass of `fill`: the value of the `name` attribute on the
   * last description that carries one, even when that value is empty, and
   * `None` when no description carries it.
   */
  function LastAttribute(descs: seq<Description>, name: string): Option<string>
  {
    if descs == [] then None
    else if Carries(descs[|descs| - 1], name) then descs[|descs| - 1].ExifAttribute(name)
    else LastAttribute(descs[..|descs| - 1], name)
  }

  /** The attribute pass finds nothing exactly when no description carries the attribute. */
  lemma {:induction false} NoCarrier(descs: seq<Description>, name: string)
    ensures LastAttribute(descs, name).None? <==> forall i :: 0 <= i < |descs| ==> !Carries(descs[i], name)
  {
    if descs != [] {
      var init := descs[..|descs| - 1];
      NoCarrier(init, name);
      assert forall i :: 0 <= i < |init| ==> init[i] == descs[i];
    }
  }

  /** The value after the attribute pass, which starts from `''`. */
  function AttributeValue(xp: XPath, name: string): string
  {
    match LastAttribute(xp.descriptions, name)
    case None => ""
    case Some(v) => v
  }

  /**
   * The value `fill` stores for `name`: the attribute value when it is
   * non-empty, otherwise the last `//exif:<name>` element, otherwise `''`.
   */
  function EntityValue(xp: XPath, name: string): (r: string)
    ensures AttributeValue(xp, name) != "" ==> r == AttributeValue(xp, name)
    ensures AttributeValue(xp, name) == "" ==> r == LastOr(xp.Nodes(ExifElement(name)), "")
  {
    var attribute := AttributeValue(xp, name);
    if attribute == "" then LastOr(xp.Nodes(ExifElement(name)), "") else attribute
  }

  /**
   * A non-empty attribute on the last description carrying it is the value,
   * whatever elements the document holds.
   */
  lemma AttributeWins(xp: XPath, name: string, i: nat)
    requires i < |xp.descriptions| && Carries(xp.descriptions[i], name)
    requires xp.descriptions[i].ExifAttribute(name).value != ""
    requires forall j :: i < j < |xp.descriptions| ==> !Carries(xp.descriptions[j], name)
    ensures EntityValue(xp, name) == xp.descriptions[i].ExifAttribute(name).value
  {
    LastCarrier(xp.descriptions, name, i);
  }

  /** The attribute pass yields the attribute of the last carrier. */
  lemma {:induction false} LastCarrier(descs: seq<Description>, name: string, i: nat)
    requires i < |descs| && Carries(descs[i], name)
    requires forall j :: i < j < |descs| ==> !Carries(descs[j], name)
    ensures LastAttribute(descs, name) == descs[i].ExifAttribute(name)
    decreases |descs|
  {
    if i < |descs| - 1 {
      LastCarrier(descs[..|descs| - 1], name, i);
    }
  }

  /**
   * Nothing found: without a carrying description and without an element
   * the value is `''`.
   */
  lemma NothingFound(xp: XPath, name: string)
    requires forall i :: 0 <= i < |xp.descriptions| ==> !Carries(xp.descriptions[i], name)
    requires xp.Nodes(ExifElement(name)) == []
    ensures EntityValue(xp, name) == ""
  {
    NoCarrier(xp.descriptions, name);
  }

  /**
   * A document with the attribute `exif:ExifVersion="0230"` and the element
   * `<exif:ExifVersion>0220</exif:ExifVersion>`: the attribute is kept, so
   * the element content does not overwrite attribute content.
   */
  lemma AttributeNotOverwritten()
    ensures var xp := XPath(map[ExifElement("ExifVersion") := ["0220"]],
                            [Description(map["ExifVersion" := "0230"], false)]);
      && LastOr(xp.Nodes(ExifElement("ExifVersion")), "") == "0220"
      && EntityValue(xp, "ExifVersion") == "0230"
  {
    var xp := XPath(map[ExifElement("ExifVersion") := ["0220"]],
                    [Description(map["ExifVersion" := "0230"], false)]);
    var d := xp.descriptions[0];
    assert d.ExifAttribute("ExifVersion") == Some("0230");
    assert Carries(d, "ExifVersion");
    AttributeWins(xp, "ExifVersion", 0);
  }

  /**
   * The date `init` derives from the raw `DateTimeOriginal` value: null when
   * it trims to nothing, otherwise what the parser for
   * `Y-m-d\TH:i:s.uP` returns, `false` on failure.
   */
  function DateOf<D>(raw: string, parse: string -> Option<D>): (r: DateValue<D>)
    ensures r == NullDate <==> forall i :: 0 <= i < |raw| ==> raw[i] in TrimChars
    ensures r != NullDate ==> r == Converted(parse(raw))
  {
    TrimEmpty(raw);
    if Trim(raw) != "" then Converted(parse(raw)) else NullDate
  }

  class ExifProperties<D> {
    var xPath: Option<XPath>
    var dateTimeOriginal: DateValue<D>
    var exifVersion: string
    var pixelXDimension: string
    var pixelYDimension: string

    /** The defaults, then every entity retrieved from `xp`. */
    constructor (xp: XPath, parse: string -> Option<D>)
      ensures xPath.None?
      ensures dateTimeOriginal == DateOf(EntityValue(xp, "DateTimeOriginal"), parse)
      ensures exifVersion == EntityValue(xp, "ExifVersion")
      ensures pixelXDimension == EntityValue(xp, "PixelXDimension")
      ensures pixelYDimension == EntityValue(xp, "PixelYDimension")
    {
      dateTimeOriginal := NullDate;
      exifVersion := "";
      pixelXDimension := "";
      pixelYDimension := "";
      xPath := Some(xp);
      new;
      Init(parse);
    }

    /**
     * Stores the value of `entity` in its field, the raw string for the
     * date, and changes no other field.
     */
    method Fill(entity: Entity)
      requires xPath.Some?
      modifies this`dateTimeOriginal, this`exifVersion, this`pixelXDimension, this`pixelYDimension
      ensures dateTimeOriginal == if entity == DateTimeOriginal then TextDate(EntityValue(xPath.value, entity.Name())) else old(dateTimeOriginal)
      ensures exifVersion == if entity == ExifVersion then EntityValue(xPath.value, entity.Name()) else old(exifVersion)
      ensures pixelXDimension == if entity == PixelXDimension then EntityValue(xPath.value, entity.Name()) else old(pixelXDimension)
      ensures pixelYDimension == if entity == PixelYDimension then EntityValue(xPath.value, entity.Name()) else old(pixelYDimension)
    {
      var xp := xPath.value;
      var name := entity.Name();
      var value := "";
      var descs := xp.descriptions;
      for k := 0 to |descs|
        invariant value == match LastAttribute(descs[..k], name) case None => "" case Some(v) => v
      {
        var node := descs[k];
        assert descs[..k + 1][..k] == descs[..k];
        if node.HasAttributes() {
          var attribute := node.ExifAttribute(name);
          if attribute.Some? {
            value := attribute.value;
          }
        }
      }
      assert descs[..|descs|] == descs;

      if value == "" {
        var nodes := xp.Nodes(ExifElement(name));
        for k := 0 to |nodes|
          invariant value == LastOr(nodes[..k], "")
        {
          value := nodes[k];
        }
        assert nodes[..|nodes|] == nodes;
      }

      match entity
      case DateTimeOriginal => dateTimeOriginal := TextDate(value);
      case ExifVersion => exifVersion := value;
      case PixelXDimension => pixelXDimension := value;
      case PixelYDimension => pixelYDimension := value;
    }

    /**
     * Fills the entities in the order DateTimeOriginal, ExifVersion,
     * PixelXDimension, PixelYDimension, converting the date right after it
     * is filled, then drops the XPath reference.
     */
    method Init(parse: string -> Option<D>)
      requires xPath.Some?
      modifies this
      ensures xPath.None?
      ensures dateTimeOriginal == DateOf(EntityValue(old(xPath.value), "DateTimeOriginal"), parse)
      ensures exifVersion == EntityValue(old(xPath.value), "ExifVersion")
      ensures pixelXDimension == EntityValue(old(xPath.value), "PixelXDimension")
      ensures pixelYDimension == EntityValue(old(xPath.value), "PixelYDimension")
    {
      Fill(DateTimeOriginal);
      var raw := dateTimeOriginal.text;
      if Trim(raw) != "" {
        dateTimeOriginal := Converted(parse(raw));
      } else {
        dateTimeOriginal := NullDate;
      }
      Fill(ExifVersion);
      Fill(PixelXDimension);
      Fill(PixelYDimension);
      // Free the reference to the XPath instance.
      xPath := None;
    }

    function GetDateTimeOriginal(): DateValue<D> reads this { dateTimeOriginal }
    function GetExifVersion(): string reads this { exifVersion }
    function GetPixelXDimension(): string reads this { pixelXDimension }
    function GetPixelYDimension(): string reads this { pixelYDimension }
  }
}
