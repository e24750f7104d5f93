/**
 * `finalize_transcript` (speech_to_phrase/post_process.py), the shared tail
 * every speech-to-text backend runs its raw text through.
 *
 * `decodeMeta` stands for `hassil_fst.decode_meta`, whose source is not part
 * of this model; it is a parameter, so every property holds for any decoder.
 */
module PostProcess {
  import opened Strings
  import ViNormalize

  /** `finalize_transcript`: strip; blank gives ""; Vietnamese text is normalised before meta decoding. */
  function FinalizeTranscript(languageFamily: string, text: string, decodeMeta: string -> string): (r: string)
    ensures AllSpace(text) ==> r == ""
    ensures !AllSpace(text) && languageFamily == "vi" ==> r == decodeMeta(ViNormalize.NormalizeTranscript(Strip(text)))
    ensures !AllSpace(text) && languageFamily != "vi" ==> r == decodeMeta(Strip(text))
  {
    var normalized := Strip(text);
    if |normalized| == 0 then ""
    else if languageFamily == "vi" then decodeMeta(ViNormalize.NormalizeTranscript(normalized))
    else decodeMeta(normalized)
  }

  /** Surrounding whitespace never matters: stripping first gives the same result. */
  lemma FinalizeOfStripped(languageFamily: string, text: string, decodeMeta: string -> string)
    ensures FinalizeTranscript(languageFamily, Strip(text), decodeMeta) == FinalizeTranscript(languageFamily, text, decodeMeta)
  {
    StripIdempotent(text);
  }

  /** Two texts that strip to the same string finalise to the same string. */
  lemma FinalizeDependsOnStripped(languageFamily: string, a: string, b: string, decodeMeta: string -> string)
    requires Strip(a) == Strip(b)
    ensures FinalizeTranscript(languageFamily, a, decodeMeta) == FinalizeTranscript(languageFamily, b, decodeMeta)
  {
  }

  /**
   * The backends strip the cased text and return "" when it is blank before
   * calling `finalize_transcript`; that check and strip change nothing.
   */
  lemma FinalizeAfterCasing(languageFamily: string, cased: string, decodeMeta: string -> string)
    ensures (if Strip(cased) == "" then "" else FinalizeTranscript(languageFamily, Strip(cased), decodeMeta))
         == FinalizeTranscript(languageFamily, cased, decodeMeta)
  {
    FinalizeOfStripped(languageFamily, cased, decodeMeta);
    StripFacts(cased);
  }
}
