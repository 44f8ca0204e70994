/**
 * The local language model, seen from the backend: a prompt goes in, an
 * answer or a failure comes out. Prompt wording is not modelled, only what
 * each prompt is built from.
 */
module Llm {
  import Json
  import opened Text

  datatype Prompt =
    | TaggingPrompt(entry: string)
    | MoodPrompt(entry: string)
    | CreateEntryTagsPrompt(entry: string)
    | CleanRecordPrompt(fallbackDate: string, record: Json.Value)
    | CleanRawPrompt(today: string, rawText: string)

  /**
   * What the model server does with a prompt: the `response` field of its
   * reply, or a failure (network error, HTTP error status, missing field).
   */
  datatype Reply = Answer(text: string) | Unavailable

  /** `generate_response`: the server's answer with surrounding whitespace stripped. */
  function Generate(server: Prompt -> Reply, p: Prompt): (r: Reply)
    ensures r.Unavailable? <==> server(p).Unavailable?
    ensures r.Answer? ==> r.text == Strip(server(p).text)
    ensures r.Answer? ==> Strip(r.text) == r.text
  {
    match server(p)
    case Answer(t) =>
      StripOfStripped(t);
      Answer(Strip(t))
    case Unavailable => Unavailable
  }
}
