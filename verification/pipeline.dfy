/**
 * `validate_resume_local`: prompt, model call, extraction, classification,
 * then one timestamped entry appended to the history store. The document
 * text, the model's reply, the file names and the clock are inputs here.
 */
module Pipeline {
  import opened Wrappers
  import opened Prompt
  import opened Extract
  import opened Analysis
  import opened History

  /** The external model process seen from outside: (model name, prompt) to raw reply text. */
  type Chat = (string, string) -> string

  /**
   * One analysis run over already-extracted document `text`. `fileName`,
   * `absPath` and `timestamp` stand for `os.path.basename(path)`,
   * `os.path.abspath(path)` and `datetime.now().isoformat()`.
   */
  method ValidateResumeLocal(results: ResultsFile, text: string, fileName: string, absPath: string,
                             timestamp: string, model: string, chat: Chat, strict: Decoder, literal: Decoder)
    returns (entry: Entry)
    modifies results
    ensures entry.file == fileName && entry.path == absPath && entry.timestamp == timestamp && entry.model == model
    ensures entry.result == AnalysisResult(chat(model, BuildPrompt(text, Requirements)), strict, literal)
    ensures results.store == Appended(old(results.store), entry)
  {
    var prompt := BuildPrompt(text, Requirements);
    var response := chat(model, prompt);
    var jsonStr := ExtractJson(response);
    var data := Classify(response, jsonStr, strict, literal);
    entry := Entry(fileName, absPath, timestamp, model, data);
    results.SaveResultEntry(entry);
  }
}
