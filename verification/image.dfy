/**
  The image fetch of `generate_image`: one request with the space-encoded
  prompt and, only when that one is not answered with 200, one more request
  with the five-word fallback prompt. The HTTP status codes are inputs; the
  second one is consulted only if the second request is made.
 */
module ImageFetch {
  import opened WordSplit
  import opened UrlEncoding
  import Truncation
  import opened HttpStatus

  /** Endpoint the encoded prompt is appended to. */
  const ServiceUrl: string := "https://image.pollinations.ai/prompt/"

  /** File the fetched image is written to and returned by name. */
  const ImagePath: string := "generated_image.png"

  /** Request URL for an already encoded prompt. */
  function ImageUrl(encoded: string): string
  {
    ServiceUrl + encoded
  }

  /** What `generate_image` returns: the image file name or nothing. */
  datatype ImageResult = Saved(path: string) | NoImage

  /** The requests made, in order, and the value returned. */
  datatype ImageRun = ImageRun(urls: seq<string>, result: ImageResult)

  /** One call of `generate_image` whose first request is answered with
      `firstStatus` and whose second request, if made, with `secondStatus`. */
  function GenerateImage(prompt: string, firstStatus: int, secondStatus: int): (r: ImageRun)
    ensures 1 <= |r.urls| <= 2
    ensures r.urls[0] == ImageUrl(Encode(prompt))
    ensures |r.urls| == 2 <==> firstStatus != StatusOk
    ensures |r.urls| == 2 ==> r.urls[1] == ImageUrl(Fallback(prompt))
    ensures r.result.Saved? <==> firstStatus == StatusOk || (firstStatus != StatusOk && secondStatus == StatusOk)
    ensures r.result.Saved? ==> r.result.path == ImagePath
  {
    var primary := ImageUrl(Encode(prompt));
    if firstStatus == StatusOk then
      ImageRun([primary], Saved(ImagePath))
    else
      var backup := ImageUrl(Fallback(prompt));
      if secondStatus == StatusOk then
        ImageRun([primary, backup], Saved(ImagePath))
      else
        ImageRun([primary, backup], NoImage)
  }

  /** Status code answering the `k`-th request of a run. */
  function StatusOf(k: nat, firstStatus: int, secondStatus: int): int
  {
    if k == 0 then firstStatus else secondStatus
  }

  /** An image is returned exactly when some request that was actually made
      was answered with 200, and then it was the last request made. */
  lemma {:induction false} SavedIffSomeRequestOk(prompt: string, firstStatus: int, secondStatus: int)
    ensures var r := GenerateImage(prompt, firstStatus, secondStatus);
            r.result.Saved? <==>
              exists k :: 0 <= k < |r.urls| && StatusOf(k, firstStatus, secondStatus) == StatusOk
    ensures var r := GenerateImage(prompt, firstStatus, secondStatus);
            r.result.Saved? ==> StatusOf(|r.urls| - 1, firstStatus, secondStatus) == StatusOk
  {
    var r := GenerateImage(prompt, firstStatus, secondStatus);
    if r.result.Saved? {
      assert StatusOf(|r.urls| - 1, firstStatus, secondStatus) == StatusOk;
    }
  }

  /** When the first request succeeds, the second status plays no part. */
  lemma {:induction false} SecondStatusIgnoredAfterSuccess(prompt: string, s: int, t: int)
    ensures GenerateImage(prompt, StatusOk, s) == GenerateImage(prompt, StatusOk, t)
  {
  }

  /** No request URL contains a space character. */
  lemma {:induction false} UrlsHaveNoSpace(prompt: string, firstStatus: int, secondStatus: int)
    ensures forall k :: 0 <= k < |GenerateImage(prompt, firstStatus, secondStatus).urls| ==>
              ' ' !in GenerateImage(prompt, firstStatus, secondStatus).urls[k]
  {
    assert ' ' !in ServiceUrl;
    NoSpaceHasNoBlank(Fallback(prompt));
  }

  /** The prompt handed to `generate_image` is the truncated one, and
      truncation never changes the fallback: the first five words of a
      truncated prompt are those of the original. */
  lemma {:induction false} FallbackOfTruncated(p: string)
    ensures Fallback(Truncation.TruncatePrompt(p).prompt) == Fallback(p)
  {
    var words := Split(p);
    if |words| > Truncation.WordLimit {
      var shown := Split(Truncation.TruncatePrompt(p).prompt);
      assert shown == words[..Truncation.WordLimit - 1]
                      + [words[Truncation.WordLimit - 1] + Truncation.Ellipsis];
      assert Take(shown, FallbackWords) == shown[..FallbackWords];
      assert shown[..FallbackWords] == words[..FallbackWords];
    }
  }
}
