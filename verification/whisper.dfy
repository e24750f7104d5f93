/**
 * The pure parts of the Whisper backend (speech_to_phrase/transcribe_whisper.py):
 * which HuggingFace model id a configured model resolves to, and the clean-up of
 * the text the speech pipeline returns.
 */
module Whisper {
  import opened Wrappers
  import opened Strings
  import opened HuggingFace
  import PostProcess

  /** The built-in PhoWhisper short names and the HuggingFace ids they stand for. */
  const Aliases: map<string, string> := map[
    "phowhisper-tiny" := "vinai/PhoWhisper-tiny",
    "phowhisper-base" := "vinai/PhoWhisper-base",
    "phowhisper-small" := "vinai/PhoWhisper-small",
    "phowhisper-medium" := "vinai/PhoWhisper-medium",
    "phowhisper-large-v2" := "vinai/PhoWhisper-large-v2"
  ]

  /** `model.url and "huggingface.co" in model.url`. */
  predicate IsHubUrl(url: Option<string>) {
    url.Some? && url.value != "" && Contains(url.value, Hub)
  }

  /** The "/"-separated parts of the URL once its trailing "/" are removed. */
  function UrlParts(url: string): (parts: seq<string>)
    ensures forall k :: 0 <= k < |parts| ==> '/' !in parts[k]
    ensures Join("/", parts) == RStripChar(url, '/')
    ensures |parts| >= 2 <==> '/' in RStripChar(url, '/')
  {
    SplitOnSingle(RStripChar(url, '/'), '/');
    SplitOn(RStripChar(url, '/'), '/')
  }

  /** The model id used to load the pipeline, from `model.id` and `model.url`. */
  function ResolveModelId(id: string, url: Option<string>): (r: string)
    ensures !IsHubUrl(url) ==> r == (if id in Aliases then Aliases[id] else id)
    ensures IsHubUrl(url) && '/' !in RStripChar(url.value, '/') ==> r == id
    ensures IsHubUrl(url) && '/' in RStripChar(url.value, '/') ==>
              var parts := UrlParts(url.value);
              |parts| >= 2 && SplitOn(r, '/') == parts[|parts| - 2..]
  {
    if url.Some? && url.value != "" && Contains(url.value, Hub) then
      var parts := UrlParts(url.value);
      SplitOnSingle(RStripChar(url.value, '/'), '/');
      if |parts| >= 2 then
        var owner, name := parts[|parts| - 2], parts[|parts| - 1];
        SplitOnConcat(owner, '/', name);
        SplitOnPiece(owner, '/');
        SplitOnPiece(name, '/');
        assert owner + "/" + name == owner + ['/'] + name;
        owner + "/" + name
      else id
    else if id == "phowhisper-tiny" then "vinai/PhoWhisper-tiny"
    else if id == "phowhisper-base" then "vinai/PhoWhisper-base"
    else if id == "phowhisper-small" then "vinai/PhoWhisper-small"
    else if id == "phowhisper-medium" then "vinai/PhoWhisper-medium"
    else if id == "phowhisper-large-v2" then "vinai/PhoWhisper-large-v2"
    else id
  }

  /** The parts of `x + "/" + owner + "/" + name` end with the owner and the name. */
  lemma LastTwoParts(x: string, owner: string, name: string)
    requires '/' !in owner && '/' !in name
    ensures var parts := SplitOn(x + "/" + owner + "/" + name, '/');
            |parts| >= 2 && parts[|parts| - 2] == owner && parts[|parts| - 1] == name
  {
    SplitOnConcat(x + "/" + owner, '/', name);
    SplitOnPiece(name, '/');
    SplitOnConcat(x, '/', owner);
    SplitOnPiece(owner, '/');
  }

  /**
   * A URL "<base>/<owner>/<name>", with any number of trailing "/", on a base that
   * mentions the hub, resolves to "<owner>/<name>" whatever the configured id is.
   */
  lemma HubUrlModelId(id: string, base: string, owner: string, name: string, slashes: string)
    requires Contains(base, Hub)
    requires '/' !in owner && '/' !in name && |name| > 0
    requires forall k :: 0 <= k < |slashes| ==> slashes[k] == '/'
    ensures ResolveModelId(id, Some(base + "/" + owner + "/" + name + slashes)) == owner + "/" + name
  {
    var r := base + "/" + owner + "/" + name;
    var url := r + slashes;
    ContainsInPrefix(base, "/" + owner + "/" + name + slashes, Hub);
    assert base + ("/" + owner + "/" + name + slashes) == url;
    assert name[|name| - 1] in name;
    assert r[|r| - 1] == name[|name| - 1];
    RStripCharAppended(r, slashes, '/');
    RStripCharUnique(r, '/', r);
    LastTwoParts(base, owner, name);
  }

  /**
   * A hub URL takes precedence: when it has no "/" (say, the bare host name), the
   * configured id is kept as it is, even when it is one of the aliases.
   */
  lemma HubUrlShadowsAlias(id: string, url: string)
    requires url != "" && Contains(url, Hub) && '/' !in url
    ensures ResolveModelId(id, Some(url)) == id
    ensures id in Aliases ==> ResolveModelId(id, Some(url)) != Aliases[id]
  {
    RStripCharUnique(url, '/', url);
    if id in Aliases {
      assert '/' !in id;
      assert '/' in Aliases[id];
    }
  }

  // ---------------------------------------------------------------------------
  // The text tail of transcribe_whisper

  /**
   * From the pipeline's `result.get("text")` to the final transcript; `casing` stands for
   * `WordCasing.get_function(model.casing)`, and a missing text field is `None`.
   */
  function TranscribeTail(textField: Option<string>, casing: string -> string, languageFamily: string,
                          decodeMeta: string -> string): (r: string)
    ensures Strip(textField.GetOr("")) == "" ==> r == ""
  {
    var text := Strip(textField.GetOr(""));
    if text == "" then ""
    else
      var normalized := RStripChar(casing(text), '.');
      PostProcess.FinalizeTranscript(languageFamily, normalized, decodeMeta)
  }

  /**
   * Trailing periods never reach the finaliser: a casing that adds periods at the
   * end of the text gives the same transcript as one that does not.
   */
  lemma TrailingPeriodsIgnored(textField: Option<string>, casing: string -> string,
                               languageFamily: string, decodeMeta: string -> string, dots: string)
    requires forall k :: 0 <= k < |dots| ==> dots[k] == '.'
    ensures TranscribeTail(textField, s => casing(s) + dots, languageFamily, decodeMeta)
         == TranscribeTail(textField, casing, languageFamily, decodeMeta)
  {
    RStripCharAppended(casing(Strip(textField.GetOr(""))), dots, '.');
  }
}
