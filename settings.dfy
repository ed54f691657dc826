/** The video settings the converter collects before decoding: the title cut
    to 19 characters, the frame rate, and a width and height checked by
    validate_width and validate_height. Each validator returns its argument
    when it is acceptable and 0 otherwise; the caller re-asks while it gets 0. */
module Settings {
  import opened Bytes

  /** validate_width: at most 128, positive, even. */
  function ValidateWidth(given: int): (r: int)
    ensures r == given || r == 0
    ensures r != 0 <==> 0 < given <= 128 && given % 2 == 0
  {
    if given > 128 then 0
    else if given <= 0 then 0
    else if given % 2 != 0 then 0
    else given
  }

  /** validate_height: at most 64, positive, a multiple of 8. */
  function ValidateHeight(given: int): (r: int)
    ensures r == given || r == 0
    ensures r != 0 <==> 0 < given <= 64 && given % 8 == 0
  {
    if given > 64 then 0
    else if given <= 0 then 0
    else if given % 8 != 0 then 0
    else given
  }

  /** Validating an already validated value changes nothing. */
  lemma ValidatorsIdempotent(w: int, h: int)
    ensures ValidateWidth(ValidateWidth(w)) == ValidateWidth(w)
    ensures ValidateHeight(ValidateHeight(h)) == ValidateHeight(h)
  {
  }

  /** title.substring(0, 19). */
  function TruncateTitle(title: string): (r: string)
    ensures |r| == Min(|title|, 19)
    ensures r <= title
  {
    if |title| <= 19 then title else title[..19]
  }

  /** The settings the converter runs with once every prompt is answered. */
  datatype VideoSpec = VideoSpec(title: string, fps: nat, width: nat, height: nat)

  /** What the prompts guarantee: a cut title, a positive frame rate, and a
      width and height the validators accept. */
  predicate ValidSpec(video: VideoSpec)
    ensures ValidSpec(video) <==>
      |video.title| <= 19 && video.fps > 0 &&
      0 < video.width <= 128 && video.width % 2 == 0 &&
      0 < video.height <= 64 && video.height % 8 == 0
  {
    |video.title| <= 19 && video.fps > 0 &&
    ValidateWidth(video.width) != 0 && ValidateHeight(video.height) != 0
  }
}
