/** The one rule of the list view (`NotesView` of E1-1.js) that is not presentation: the body preview. */
module NotesAppView {

  /** Bodies longer than this are cut in the list: `MAX_BODY_LENGTH`. */
  const MaxBodyLength: nat := 65

  /** What a list item shows of a body: its leading text and whether "..." follows. */
  datatype BodyPreview = BodyPreview(text: string, ellipsis: bool)

  function Min(a: nat, b: nat): nat {
    if a <= b then a else b
  }

  /**
   * `body.substring(0, MAX_BODY_LENGTH)` followed by "..." when `body.length > MAX_BODY_LENGTH`.
   * The preview is a prefix of the body; the ellipsis appears exactly when text was cut off.
   */
  function Preview(body: string): (p: BodyPreview)
    ensures |p.text| == Min(MaxBodyLength, |body|)
    ensures p.text <= body
    ensures p.ellipsis <==> p.text != body
    ensures p.ellipsis <==> |body| > MaxBodyLength
  {
    BodyPreview(body[..Min(MaxBodyLength, |body|)], |body| > MaxBodyLength)
  }
}
