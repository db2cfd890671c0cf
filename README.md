# HTML Image Replacer — the image-source replacement rule

The HTML Image Replacer takes pasted HTML and finds its `<img>` tags in
document order. It shows a form with one URL field per image, pre-filled with
the image's current `src`. On submit it rewrites the `src` of each image in
place and re-serialises the document.

This project models the only logic the application writes itself: the
submit loop and the facts it relies on.

- An image tag is a `Tag` object with a mutable attribute map (`Attrs`, name
  to value). `src` may be absent.
- The located images are a sequence of distinct `Tag` references. The
  proposals are a sequence of strings, one per image, in the same order.
- The rule for image `i`: write `newUrls[i]` into `src` only if it is
  non-empty and differs from the current `src`. An absent `src` differs from
  every string. An empty proposal means "leave the image alone".

`ReplaceImages` is the loop. It updates the tags in place and is proved
against the pure function `ReplaceAll`, which applies the per-image rule
`Replaced` to every image. The properties are proved about those functions:
- the empty proposal leaves the image alone;
- an equal proposal is a no-op;
- any other proposal becomes the `src`, and is created when `src` was absent;
- no other attribute changes;
- each image depends only on its own proposal;
- running the pass again on its own result with the same proposals changes nothing;
- a form submitted without edits changes nothing.

With zero images the loop runs no iteration, and `ReplaceImages`'s ensures
then says every tag (there are none) is unchanged. The application shows a
warning instead of the form in that case.

The code only ever edits `src`. A more general attribute editor, with width
and height fields and a "remove" operation, would be a different tool; this
model follows the code.

## Model

| member | source | states |
|---|---|---|
| ImageReplacer.SrcOf | app.py:48 | the current source is present exactly when the tag has a `src` attribute, and is then its value |
| ImageReplacer.Writes | app.py:70 | when the tag has no `src`, the rule writes exactly when the proposal is non-empty; when it has one, exactly when the proposal is non-empty and differs from it |
| ImageReplacer.Replaced | app.py:70-71 | an empty proposal or one equal to the current `src` leaves the image unchanged; any other proposal ends up as `src` (created if absent); no other attribute is created, removed or changed |
| ImageReplacer.ReplaceAll | app.py:69-71 | the pass keeps the number and order of images, and image i's result depends only on image i and proposal i |
| ImageReplacer.FormDefault | app.py:60 | an image's form field starts as its current `src`, or empty when the tag has none |
| ImageReplacer.FormDefaults | app.py:46-61 | the form yields one proposal per image, in image order; each field starts as the image's current `src`, or empty when it has none |
| ImageReplacer.ReplacedIsOverwriteUnlessEmpty | app.py:70-71 | the equality test only saves a write: the outcome is "overwrite `src` unless the proposal is empty" |
| ImageReplacer.ReplacedIdempotent | app.py:70-71 | applying the rule twice with the same proposal gives the same image as applying it once |
| ImageReplacer.ReplaceAllIdempotent | app.py:69-71 | running the pass again on its own result with the same proposals leaves every image unchanged (the application re-parses the pasted text on every submit, so repeated submits with the same proposals also give the same result) |
| ImageReplacer.UntouchedFormChangesNothing | app.py:46-71 | submitting the form with every field left at its pre-filled value changes no image |
| ImageReplacer.ProposalOnlyAffectsItsImage | app.py:69-71 | changing proposal j changes no image other than image j, and image j then follows the new proposal |
| ImageReplacer.Tag.constructor | app.py:25-26 | a located image tag holds the attribute map the parser gave it |
| ImageReplacer.AttrsOf | app.py:26 | the attribute maps of the located tags, one per tag, in the locator's order |
| ImageReplacer.ReplaceImages | app.py:69-71 | the in-place loop leaves the tags' attributes equal to `ReplaceAll` of their old attributes and the proposals; it touches no object other than the located tags |

## Left out

- Parsing the text (`BeautifulSoup(...)`, app.py:25), locating the tags (`find_all('img')`, app.py:26) and serialising (`soup.prettify()`, app.py:73) are library calls whose code is not part of this model. The located tags are an input, and no output text is produced.
- The Streamlit user interface (page setup, text area, live preview, form widgets, columns, image previews, code display; app.py:4-22, 28-45, 49-59, 62-68, 75-79) is presentation and is left out. The user's entries in the form are the `newUrls` input.
- A form field that the text input reports as `None` (an image without `src` whose field was left blank) is represented by the empty string. Both are falsy in the test at app.py:70, so the rule treats them the same.
- ReplaceImages: attributes are modelled as an unordered map. The insertion order of the tag's attribute dictionary is not captured; in that dictionary a newly created `src` is added after the existing attributes. The order in which the serialiser prints attributes is not modelled either.
- ReplaceImages: the located tags are required to be distinct. The locator returns each tag once, so the case where one tag occurs twice is not modelled.
- Attribute values that the parser turns into lists (such as `class`) are represented as strings. Only `src` is read or written, and it is a single string.
