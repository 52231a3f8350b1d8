/**
 * `getDimensions`: the size reported for the optimised document. The first
 * top-level `svg` element decides it: its `width` and `height` when it has
 * both, otherwise the third and fourth tokens of its `viewBox`, otherwise
 * nothing. The model keeps the selected strings; `parseFloat` is left to
 * the caller (`None` stands for a token that does not exist, which
 * `parseFloat` turns into NaN).
 */
module Dimensions {
  import opened Wrappers
  import opened ViewBox

  /** A top-level node of the parsed document: an element with its attributes, or anything else. */
  datatype ContentNode = Element(name: string, attrs: map<string, string>) | NonElement

  /** `{}` or `{ width, height }`. */
  datatype Size = NoSize | Size(width: Option<string>, height: Option<string>)

  /** `el.isElem('svg')`. */
  predicate IsSvg(node: ContentNode)
  {
    node.Element? && node.name == "svg"
  }

  /** `content[i]` is an `svg` element and no earlier node is one. */
  ghost predicate IsFirstSvgAt(content: seq<ContentNode>, i: int)
  {
    0 <= i < |content| && IsSvg(content[i]) && forall j :: 0 <= j < i ==> !IsSvg(content[j])
  }

  /** The attributes from which a size can be read. */
  predicate HasSizeAttributes(attrs: map<string, string>)
  {
    ("width" in attrs && "height" in attrs) || "viewBox" in attrs
  }

  /** `content.filter(el => el.isElem('svg'))[0]`: the attributes of the first `svg` element. */
  function FirstSvg(content: seq<ContentNode>): (r: Option<map<string, string>>)
    ensures r.None? <==> forall i :: 0 <= i < |content| ==> !IsSvg(content[i])
    ensures r.Some? ==> exists i :: IsFirstSvgAt(content, i) && content[i].attrs == r.value
    decreases |content|
  {
    if content == [] then None
    else if IsSvg(content[0]) then Some(content[0].attrs)
    else
      var r := FirstSvg(content[1..]);
      FirstSvgShift(content, r);
      r
  }

  /** The first `svg` element of the tail is the first of the whole when the head is not one. */
  lemma FirstSvgShift(content: seq<ContentNode>, r: Option<map<string, string>>)
    requires content != [] && !IsSvg(content[0])
    requires r.None? <==> forall i :: 0 <= i < |content[1..]| ==> !IsSvg(content[1..][i])
    requires r.Some? ==> exists i :: IsFirstSvgAt(content[1..], i) && content[1..][i].attrs == r.value
    ensures r.None? <==> forall i :: 0 <= i < |content| ==> !IsSvg(content[i])
    ensures r.Some? ==> exists i :: IsFirstSvgAt(content, i) && content[i].attrs == r.value
  {
    assert forall i :: 0 < i < |content| ==> content[i] == content[1..][i - 1];
    if r.Some? {
      var i :| IsFirstSvgAt(content[1..], i) && content[1..][i].attrs == r.value;
      assert IsFirstSvgAt(content, i + 1);
    }
  }

  /** `viewBox[i]`, which is `undefined` past the last token. */
  function TokenAt(tokens: seq<string>, i: nat): (r: Option<string>)
    ensures r.Some? <==> i < |tokens|
    ensures i < |tokens| ==> r == Some(tokens[i])
  {
    if i < |tokens| then Some(tokens[i]) else None
  }

  /** The size an `svg` element's attributes give. */
  function SizeFromAttributes(attrs: map<string, string>): (r: Size)
    ensures r.Size? <==> HasSizeAttributes(attrs)
  {
    if "width" in attrs && "height" in attrs then
      Size(Some(attrs["width"]), Some(attrs["height"]))
    else if "viewBox" in attrs then
      var tokens := Split(attrs["viewBox"]);
      Size(TokenAt(tokens, 2), TokenAt(tokens, 3))
    else
      NoSize
  }

  function GetDimensions(content: seq<ContentNode>): (r: Size)
    ensures (forall i :: 0 <= i < |content| ==> !IsSvg(content[i])) ==> r == NoSize
    ensures r.Size? <==> exists i :: IsFirstSvgAt(content, i) && HasSizeAttributes(content[i].attrs)
  {
    match FirstSvg(content)
    case None => NoSize
    case Some(attrs) => SizeFromAttributes(attrs)
  }

  /**
   * Only the first `svg` element counts: nodes before it that are not `svg`
   * elements, and everything after it, do not change the size.
   */
  lemma {:induction false} FirstSvgDecides(prefix: seq<ContentNode>, attrs: map<string, string>, rest: seq<ContentNode>)
    requires forall i :: 0 <= i < |prefix| ==> !IsSvg(prefix[i])
    ensures GetDimensions(prefix + [Element("svg", attrs)] + rest) == SizeFromAttributes(attrs)
    decreases |prefix|
  {
    var content := prefix + [Element("svg", attrs)] + rest;
    if prefix == [] {
      assert content[0] == Element("svg", attrs);
    } else {
      assert content[1..] == prefix[1..] + [Element("svg", attrs)] + rest;
      FirstSvgDecides(prefix[1..], attrs, rest);
      assert !IsSvg(content[0]);
    }
  }

  /** `width` and `height` together take precedence: the `viewBox` is then ignored. */
  lemma WidthAndHeightWin(attrs: map<string, string>)
    requires "width" in attrs && "height" in attrs
    ensures SizeFromAttributes(attrs) == Size(Some(attrs["width"]), Some(attrs["height"]))
    ensures SizeFromAttributes(attrs) == SizeFromAttributes(attrs - {"viewBox"})
  {
  }

  /** `width` or `height` alone is ignored: the size then comes from the `viewBox`. */
  lemma {:induction false} LoneDimensionIgnored(attrs: map<string, string>)
    requires !("width" in attrs && "height" in attrs)
    ensures SizeFromAttributes(attrs) == SizeFromAttributes(attrs - {"width", "height"})
  {
    var stripped := attrs - {"width", "height"};
    assert "width" !in stripped && "height" !in stripped;
    assert ("viewBox" in stripped) == ("viewBox" in attrs);
    if "viewBox" in attrs {
      assert stripped["viewBox"] == attrs["viewBox"];
    }
  }

  /**
   * Without both `width` and `height`, a `viewBox` of four non-empty numbers
   * joined by one delimiter gives its third and fourth numbers as the size.
   */
  lemma {:induction false} ViewBoxGivesSize(attrs: map<string, string>, minX: string, minY: string, w: string, h: string, sep: string)
    requires !("width" in attrs && "height" in attrs)
    requires IsDelimiter(sep)
    requires forall t :: t in [minX, minY, w, h] ==> |t| > 0 && SeparatorFree(t)
    requires "viewBox" in attrs && attrs["viewBox"] == Join([minX, minY, w, h], sep)
    ensures SizeFromAttributes(attrs) == Size(Some(w), Some(h))
  {
    var tokens := [minX, minY, w, h];
    assert forall i :: 0 <= i < |tokens| ==> tokens[i] in tokens;
    SplitJoin(tokens, sep);
  }

  /**
   * A `viewBox` with fewer than four tokens gives no height, and one with
   * fewer than three gives no width either.
   */
  lemma ShortViewBox(attrs: map<string, string>)
    requires !("width" in attrs && "height" in attrs) && "viewBox" in attrs
    requires |Split(attrs["viewBox"])| < 4
    ensures SizeFromAttributes(attrs).height == None
    ensures |Split(attrs["viewBox"])| < 3 ==> SizeFromAttributes(attrs).width == None
  {
  }
}
