/** The post card's content preview: long content is cut to 150 characters and marked with an ellipsis. */
module PostCard {

  const PreviewLength: nat := 150

  function Min(a: nat, b: nat): nat
  {
    if a <= b then a else b
  }

  function ContentPreview(content: string): (preview: string)
    ensures |content| <= PreviewLength ==> preview == content
    ensures |content| > PreviewLength ==> |preview| == PreviewLength + 3 && preview[PreviewLength..] == "..."
    ensures |preview| <= PreviewLength + 3
    ensures Min(PreviewLength, |content|) <= |preview|
    ensures preview[..Min(PreviewLength, |content|)] == content[..Min(PreviewLength, |content|)]
  {
    if |content| > PreviewLength then content[..PreviewLength] + "..." else content
  }
}
