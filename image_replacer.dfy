/**
 The image-source replacement step of the HTML Image Replacer.

 The document's image tags arrive in document order; the form collects one
 proposed URL per image, in the same order; on submit every image whose
 proposal is non-empty and differs from its current `src` gets that proposal
 written into its `src` attribute. Nothing else about any tag is touched.
 */
module ImageReplacer {

  datatype Option<T> = None | Some(value: T)

  /** The attributes of one tag: attribute name to attribute value. */
  type Attrs = map<string, string>

  /** The one attribute the replacement rule ever writes. */
  const Src: string := "src"

  /** `img.get('src')`: the current source, absent when the tag has none. */
  function SrcOf(img: Attrs): (r: Option<string>)
    ensures r.Some? <==> Src in img
    ensures r.Some? ==> r.value == img[Src]
  {
    if Src in img then Some(img[Src]) else None
  }

  /**
   The rule for one image. A proposal is truthy when it is non-empty; an
   absent `src` never equals a string, so any non-empty proposal is a change.
   */
  function Writes(img: Attrs, url: string): (w: bool)
    ensures Src !in img ==> (w <==> url != "")
    ensures Src in img ==> (w <==> url != "" && url != img[Src])
  {
    url != "" && SrcOf(img) != Some(url)
  }

  /** The attributes of one image after the rule has been applied to it. */
  function Replaced(img: Attrs, url: string): (r: Attrs)
    // an empty proposal leaves the image exactly as it was, src present or not
    ensures url == "" ==> r == img
    // a proposal equal to the current src leaves the image as it was
    ensures SrcOf(img) == Some(url) ==> r == img
    // any other proposal ends up as the src, created if it was absent
    ensures url != "" ==> Src in r && r[Src] == url
    ensures url != "" ==> r.Keys == img.Keys + {Src}
    // no attribute other than src is created, removed or changed
    ensures forall k :: k != Src ==> (k in r <==> k in img)
    ensures forall k :: k != Src && k in img ==> r[k] == img[k]
  {
    if Writes(img, url) then img[Src := url] else img
  }

  /** The whole submit pass: image i is rewritten with proposal i. */
  function ReplaceAll(imgs: seq<Attrs>, urls: seq<string>): (r: seq<Attrs>)
    requires |urls| == |imgs|
    // as many images as before, in the same order, each one depending only
    // on its own attributes and its own proposal
    ensures |r| == |imgs|
    ensures forall i :: 0 <= i < |imgs| ==> r[i] == Replaced(imgs[i], urls[i])
  {
    if imgs == [] then []
    else [Replaced(imgs[0], urls[0])] + ReplaceAll(imgs[1..], urls[1..])
  }

  /**
   The value the form's text field for an image starts with: its current
   src, or nothing when the tag has none.
   */
  function FormDefault(img: Attrs): (r: string)
    ensures Src in img ==> r == img[Src]
    ensures Src !in img ==> r == ""
  {
    match SrcOf(img)
    case Some(s) => s
    case None => ""
  }

  /** The proposals of a form whose fields were all left as they started. */
  function FormDefaults(imgs: seq<Attrs>): (r: seq<string>)
    ensures |r| == |imgs|
    ensures forall i :: 0 <= i < |imgs| ==> r[i] == FormDefault(imgs[i])
  {
    if imgs == [] then [] else [FormDefault(imgs[0])] + FormDefaults(imgs[1..])
  }

  /** The equality test only saves a write: it never changes the outcome. */
  lemma ReplacedIsOverwriteUnlessEmpty(img: Attrs, url: string)
    ensures Replaced(img, url) == if url == "" then img else img[Src := url]
  {
  }

  /** Applying the rule twice with the same proposal is applying it once. */
  lemma ReplacedIdempotent(img: Attrs, url: string)
    ensures Replaced(Replaced(img, url), url) == Replaced(img, url)
  {
  }

  /**
   Running the pass again on its own result with the same proposals changes
   no image. (The application itself re-parses the pasted text on every
   submit, so each submit starts from the original tags.)
   */
  lemma ReplaceAllIdempotent(imgs: seq<Attrs>, urls: seq<string>)
    requires |urls| == |imgs|
    ensures ReplaceAll(ReplaceAll(imgs, urls), urls) == ReplaceAll(imgs, urls)
  {
  }

  /** Submitting the form without editing any field changes no image. */
  lemma UntouchedFormChangesNothing(imgs: seq<Attrs>)
    ensures ReplaceAll(imgs, FormDefaults(imgs)) == imgs
  {
  }

  /** Changing proposal j affects no image other than image j. */
  lemma ProposalOnlyAffectsItsImage(imgs: seq<Attrs>, urls: seq<string>, j: nat, u: string)
    requires |urls| == |imgs| && j < |urls|
    ensures forall i :: 0 <= i < |imgs| && i != j ==>
      ReplaceAll(imgs, urls[j := u])[i] == ReplaceAll(imgs, urls)[i]
    ensures ReplaceAll(imgs, urls[j := u])[j] == Replaced(imgs[j], u)
  {
  }

  /** An image tag of the parsed document; the locator hands out references to it. */
  class Tag {
    var attrs: Attrs

    constructor (attrs: Attrs)
      ensures this.attrs == attrs
    {
      this.attrs := attrs;
    }
  }

  /** The attributes of the given tags, in the given order. */
  function AttrsOf(images: seq<Tag>): (r: seq<Attrs>)
    reads set t | t in images
    ensures |r| == |images|
    ensures forall i :: 0 <= i < |images| ==> r[i] == images[i].attrs
  {
    if images == [] then [] else [images[0].attrs] + AttrsOf(images[1..])
  }

  /**
   The submit loop: each image's `src` is overwritten in place with its
   proposal when that proposal is non-empty and differs from the current one.
   The locator yields each tag once, and the form one proposal per image.
   */
  method ReplaceImages(images: seq<Tag>, newUrls: seq<string>)
    requires |newUrls| == |images|
    requires forall i, j :: 0 <= i < j < |images| ==> images[i] != images[j]
    modifies set t | t in images
    ensures AttrsOf(images) == ReplaceAll(old(AttrsOf(images)), newUrls)
  {
    ghost var before := AttrsOf(images);
    for i := 0 to |images|
      invariant forall k :: 0 <= k < i ==> images[k].attrs == Replaced(before[k], newUrls[k])
      invariant forall k :: i <= k < |images| ==> images[k].attrs == before[k]
    {
      var img := images[i];
      if Writes(img.attrs, newUrls[i]) {
        img.attrs := img.attrs[Src := newUrls[i]];
      }
    }
  }
}
