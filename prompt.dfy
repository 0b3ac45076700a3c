/**
 * build_prompt of prompt.cpp: the fixed chat template (system message,
 * user instruction, assistant turn) wrapped around the OCR text. The
 * template's Chinese text is written as code points, so the lengths below
 * count code points rather than UTF-8 bytes.
 */
module Prompt {
  import opened Text

  /** The system message. */
  const SystemText: string := "你是一个严谨的技术助理。你只使用中文输出，且只输出两段：第一段为对截图文字的总结（不分点，一段话）；第二段为相关扩展知识（不分点，一段话）。不要输出额外标题、不要输出英文、不要输出提问或任务指令。\n"

  /** The user instruction that precedes the OCR text. */
  const Instruction: string := "以下是从截图OCR得到的文字，请基于文字内容完成总结与扩展。\n\n"

  const Opening: string := "<|im_start|>system\n"

  const Closing: string := "<|im_start|>assistant\n"

  /** Everything the template writes before the OCR text. */
  const Head: string := Opening + SystemText + "<|im_end|>\n" + "<|im_start|>user\n" + Instruction

  /** Everything the template writes after the OCR text. */
  const Tail: string := "\n" + "<|im_end|>\n" + Closing

  /** build_prompt: the template with the OCR text in the user turn. */
  function BuildPrompt(ocrText: string): string {
    Head + ocrText + Tail
  }

  /** The prompt opens the system turn and ends by opening the assistant turn. */
  lemma PromptFrame(ocrText: string)
    ensures StartsWith(BuildPrompt(ocrText), Opening)
    ensures EndsWith(BuildPrompt(ocrText), Closing)
  {
    var p := BuildPrompt(ocrText);
    assert Head[..|Opening|] == Opening;
    assert p[..|Opening|] == Head[..|Opening|];
    assert Tail[|Tail| - |Closing|..] == Closing;
    assert p[|p| - |Tail|..] == Tail;
    assert p[|p| - |Closing|..] == Tail[|Tail| - |Closing|..];
  }

  /** The OCR text appears verbatim at a fixed offset, immediately followed by the closing of the user turn. */
  lemma PromptCarriesText(ocrText: string)
    ensures var p := BuildPrompt(ocrText);
      |p| == |Head| + |ocrText| + |Tail|
      && p[|Head|..|Head| + |ocrText|] == ocrText
      && p[|Head| + |ocrText|..] == "\n<|im_end|>\n<|im_start|>assistant\n"
  {
    var p := BuildPrompt(ocrText);
    assert p[|Head|..|Head| + |ocrText|] == ocrText;
    assert p[|Head| + |ocrText|..] == Tail;
  }

  /** Different OCR texts give different prompts. */
  lemma PromptInjective(a: string, b: string)
    requires BuildPrompt(a) == BuildPrompt(b)
    ensures a == b
  {
    PromptCarriesText(a);
    PromptCarriesText(b);
  }
}
