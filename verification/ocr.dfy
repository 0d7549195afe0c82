/**
  `OCRService`: single-image extraction (decode only the generated
  continuation, then strip) and multi-image extraction (one extraction per
  image, in order, joining the non-empty texts with a blank line).
 */
module Ocr {
  import opened Wrappers
  import opened Text
  import opened Adapters

  /** The vision-to-text model. Generation runs greedily (`do_sample=False`,
      `max_new_tokens=4096`), so each component is a function of the image. */
  datatype OcrModel = OcrModel(
    promptLength: Image -> Option<nat>,           // width of `input_ids`; None when the processor gives none
    generate: Image -> Result<seq<int>, Error>,   // first row of the generated token ids, prompt included
    detokenize: seq<int> -> string)               // `tokenizer.decode(..., skip_special_tokens=True)`

  /** Separator between page texts. */
  const PageSeparator: string := "\n\n"

  /** `input_len`: 0 when the processor produced no `input_ids`. */
  function InputLength(m: OcrModel, image: Image): nat {
    match m.promptLength(image)
    case None => 0
    case Some(n) => n
  }

  /** `extract_text(image)`: one model call; the tokens from `input_len` on are
      decoded and stripped. */
  function ExtractText(m: OcrModel, image: Image): (run: Run<string>)
    ensures run.calls == [OcrCall(image)]
    ensures run.result.Success? <==> m.generate(image).Success?
    ensures run.result.Success? ==> IsStripped(run.result.value)
    ensures run.result.Failure? ==> run.result == m.generate(image).PropagateFailure()
  {
    match m.generate(image)
    case Failure(e) => Run(Failure(e), [OcrCall(image)])
    case Success(generated) =>
      Run(Success(Strip(m.detokenize(Drop(generated, InputLength(m, image))))), [OcrCall(image)])
  }

  /** The echoed prompt is never part of the text: when the generated ids are
      the prompt followed by a continuation, only the continuation is decoded. */
  lemma ExtractTextSkipsPrompt(m: OcrModel, image: Image, prompt: seq<int>, continuation: seq<int>)
    requires m.promptLength(image) == Some(|prompt|)
    requires m.generate(image) == Success(prompt + continuation)
    ensures ExtractText(m, image).result == Success(Strip(m.detokenize(continuation)))
  {
    assert (prompt + continuation)[|prompt|..] == continuation;
    if continuation == [] {
      assert prompt + continuation == prompt;
    }
  }

  /** A generation no longer than the prompt leaves nothing to decode: the
      text is the stripped decoding of no tokens, which is "" for a tokenizer
      that decodes no tokens to the empty string. */
  lemma ExtractTextPastEnd(m: OcrModel, image: Image)
    requires m.generate(image).Success? && InputLength(m, image) >= |m.generate(image).value|
    ensures ExtractText(m, image).result == Success(Strip(m.detokenize([])))
    ensures m.detokenize([]) == [] ==> ExtractText(m, image).result == Success([])
  {
    assert Strip([]) == [];
  }

  /** Without `input_ids` nothing is skipped. */
  lemma ExtractTextWithoutPrompt(m: OcrModel, image: Image)
    requires m.promptLength(image).None?
    requires m.generate(image).Success?
    ensures ExtractText(m, image).result == Success(Strip(m.detokenize(m.generate(image).value)))
  {
    assert Drop(m.generate(image).value, 0) == m.generate(image).value;
  }

  /** Every per-image text, in order; stops at the first image whose
      extraction raises. */
  function ExtractAll(m: OcrModel, images: seq<Image>): (run: Run<seq<string>>)
    ensures run.result.Success? <==> forall i | 0 <= i < |images| :: m.generate(images[i]).Success?
    ensures run.result.Success? ==> OcrCallsFor(run.calls, images)
    ensures run.result.Success? ==>
      && |run.result.value| == |images|
      && forall i | 0 <= i < |images| :: ExtractText(m, images[i]).result == Success(run.result.value[i])
    ensures run.result.Failure? ==> run.result.error == FirstFailure(m, images)
    decreases |images|
  {
    if images == [] then Run(Success([]), [])
    else
      var first := ExtractText(m, images[0]);
      if first.result.Failure? then
        Run(first.result.PropagateFailure(), first.calls)
      else
        var rest := ExtractAll(m, images[1..]);
        var calls := first.calls + rest.calls;
        assert forall i | 1 <= i < |images| :: images[i] == images[1..][i - 1];
        if rest.result.Failure? then
          Run(rest.result.PropagateFailure(), calls)
        else
          Run(Success([first.result.value] + rest.result.value), calls)
  }

  /** The error of the first image whose generation fails. */
  function FirstFailure(m: OcrModel, images: seq<Image>): Error
    requires exists i | 0 <= i < |images| :: m.generate(images[i]).Failure?
    decreases |images|
  {
    if m.generate(images[0]).Failure? then m.generate(images[0]).error
    else
      assert exists i | 1 <= i < |images| :: m.generate(images[i]).Failure?;
      var i :| 1 <= i < |images| && m.generate(images[i]).Failure?;
      assert images[1..][i - 1] == images[i];
      FirstFailure(m, images[1..])
  }

  /** A failing extraction stops at the first image whose generation fails:
      that image and every image before it were sent to OCR once, in order,
      and no image after it was. */
  lemma {:induction false} ExtractAllStopsAtFirstFailure(m: OcrModel, images: seq<Image>)
    requires ExtractAll(m, images).result.Failure?
    ensures var calls := ExtractAll(m, images).calls;
      && 0 < |calls| <= |images|
      && OcrCallsFor(calls, images[..|calls|])
      && m.generate(images[|calls| - 1]).Failure?
      && (forall i | 0 <= i < |calls| - 1 :: m.generate(images[i]).Success?)
    decreases |images|
  {
    var first := ExtractText(m, images[0]);
    if first.result.Success? {
      var tail := images[1..];
      var rest := ExtractAll(m, tail);
      ExtractAllStopsAtFirstFailure(m, tail);
      var calls := first.calls + rest.calls;
      assert ExtractAll(m, images).calls == calls;
      var n := |rest.calls|;
      assert images[n] == tail[n - 1];
      forall i | 0 <= i < n + 1 ensures calls[i] == OcrCall(images[..n + 1][i]) {
        if i > 0 {
          assert calls[i] == rest.calls[i - 1];
          assert tail[..n][i - 1] == images[i];
        }
      }
      forall i | 0 <= i < n ensures m.generate(images[i]).Success? {
        if i > 0 {
          assert tail[i - 1] == images[i];
        }
      }
    }
  }

  /** `extract_text_from_images(images)`: one extraction per image in list
      order, the non-empty texts joined with a blank line. */
  function ExtractTextFromImages(m: OcrModel, images: seq<Image>): (run: Run<string>)
    ensures run.calls == ExtractAll(m, images).calls
    ensures run.result.Success? <==> ExtractAll(m, images).result.Success?
    ensures run.result.Failure? ==> run.result.error == ExtractAll(m, images).result.error
    ensures run.result.Success? ==>
      var texts := ExtractAll(m, images).result.value;
      && run.result.value == Join(PageSeparator, NonEmpty(texts))
      && IsStripped(run.result.value)
      && (run.result.value == [] <==> forall i | 0 <= i < |texts| :: texts[i] == [])
    ensures images == [] ==> run == Run(Success([]), [])
  {
    var all := ExtractAll(m, images);
    match all.result
    case Failure(e) => Run(Failure(e), all.calls)
    case Success(texts) =>
      var kept := NonEmpty(texts);
      NonEmptyCounts(texts);
      assert forall i | 0 <= i < |kept| :: IsStripped(kept[i]) by {
        forall i | 0 <= i < |kept| ensures IsStripped(kept[i]) {
          assert multiset(kept)[kept[i]] > 0;
          assert kept[i] in texts;
        }
      }
      JoinStripped(PageSeparator, kept);
      Run(Success(Join(PageSeparator, kept)), all.calls)
  }
}
