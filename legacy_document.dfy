/**
 * The legacy document of `Kaloa\Xmp`: the last `dc:title` list item, the
 * `dc:subject` list items as tags, and an original date decided by the last
 * `rdf:Description` node that has attributes.
 */
module LegacyDocument {
  import opened Wrappers
  import opened XmpQuery

  /** The date one description with attributes sets: null without `exif:DateTimeOriginal`, else its conversion. */
  function DescriptionDate<D>(d: Description, convert: string -> Option<D>): DateValue<D>
  {
    match d.ExifAttribute("DateTimeOriginal")
    case None => NullDate
    case Some(v) => Converted(convert(v))
  }

  /** `descs[i]` is the last description that has attributes. */
  predicate LastWithAttributes(descs: seq<Description>, i: int)
  {
    0 <= i < |descs| && descs[i].HasAttributes()
    && forall j :: i < j < |descs| ==> !descs[j].HasAttributes()
  }

  /**
   * The date after the loop over `descs` starting from `start`: only the
   * last description with attributes counts, and without one the date keeps
   * `start`.
   */
  function LegacyDate<D>(descs: seq<Description>, convert: string -> Option<D>, start: DateValue<D>): DateValue<D>
  {
    if descs == [] then start
    else if descs[|descs| - 1].HasAttributes() then DescriptionDate(descs[|descs| - 1], convert)
    else LegacyDate(descs[..|descs| - 1], convert, start)
  }

  /** Descriptions without attributes leave the date alone. */
  lemma {:induction false} LegacyDateUnchanged<D>(descs: seq<Description>, convert: string -> Option<D>, start: DateValue<D>)
    requires forall i :: 0 <= i < |descs| ==> !descs[i].HasAttributes()
    ensures LegacyDate(descs, convert, start) == start
  {
    if descs != [] {
      LegacyDateUnchanged(descs[..|descs| - 1], convert, start);
    }
  }

  /** The last description with attributes alone decides the date. */
  lemma {:induction false} LegacyDateLast<D>(descs: seq<Description>, convert: string -> Option<D>, start: DateValue<D>, i: int)
    requires LastWithAttributes(descs, i)
    ensures LegacyDate(descs, convert, start) == DescriptionDate(descs[i], convert)
  {
    if i < |descs| - 1 {
      var init := descs[..|descs| - 1];
      assert LastWithAttributes(init, i);
      LegacyDateLast(init, convert, start, i);
    }
  }

  class Document<D> {
    var tags: seq<string>
    var title: string
    var exifDateTimeOriginal: DateValue<D>

    /**
     * Empty tags, an empty title and `''` for the date, then `process`.
     * `xp` is the document seen through XPath with the `dc`, `rdf` and
     * `exif` prefixes registered; `convert` is the conversion
     * `DateTime::createFromFormat('U', strtotime(...))`.
     */
    constructor (xp: XPath, convert: string -> Option<D>)
      ensures tags == xp.Nodes(DcListItems("subject"))
      ensures title == LastOr(xp.Nodes(DcListItems("title")), "")
      ensures exifDateTimeOriginal == LegacyDate(xp.descriptions, convert, TextDate(""))
    {
      tags := [];
      title := "";
      exifDateTimeOriginal := TextDate("");
      new;
      Process(xp, convert);
    }

    /**
     * The title is overwritten by every `//dc:title//rdf:li` value, the date
     * by every description with attributes, and every
     * `//dc:subject//rdf:li` value is appended to the tags.
     */
    method Process(xp: XPath, convert: string -> Option<D>)
      modifies this
      ensures title == LastOr(xp.Nodes(DcListItems("title")), old(title))
      ensures exifDateTimeOriginal == LegacyDate(xp.descriptions, convert, old(exifDateTimeOriginal))
      ensures tags == old(tags) + xp.Nodes(DcListItems("subject"))
    {
      var titles := xp.Nodes(DcListItems("title"));
      for k := 0 to |titles|
        invariant title == LastOr(titles[..k], old(title))
        invariant tags == old(tags)
        invariant exifDateTimeOriginal == old(exifDateTimeOriginal)
      {
        title := titles[k];
      }
      assert titles[..|titles|] == titles;

      var descs := xp.descriptions;
      for k := 0 to |descs|
        invariant exifDateTimeOriginal == LegacyDate(descs[..k], convert, old(exifDateTimeOriginal))
        invariant title == LastOr(titles, old(title))
        invariant tags == old(tags)
      {
        var node := descs[k];
        assert descs[..k + 1][..k] == descs[..k];
        if node.HasAttributes() {
          var attribute := node.ExifAttribute("DateTimeOriginal");
          exifDateTimeOriginal := if attribute.Some? then Converted(convert(attribute.value)) else NullDate;
        }
      }
      assert descs[..|descs|] == descs;

      var subjects := xp.Nodes(DcListItems("subject"));
      for k := 0 to |subjects|
        invariant tags == old(tags) + subjects[..k]
        invariant title == LastOr(titles, old(title))
        invariant exifDateTimeOriginal == LegacyDate(descs, convert, old(exifDateTimeOriginal))
      {
        tags := tags + [subjects[k]];
      }
      assert subjects[..|subjects|] == subjects;
    }

    function GetTags(): seq<string> reads this { tags }
    function GetTitle(): string reads this { title }
    function GetExifDateTimeOriginal(): DateValue<D> reads this { exifDateTimeOriginal }
  }
}
