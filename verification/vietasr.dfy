/**
 * The pure helpers of the VietASR backend (speech_to_phrase/transcribe_vietasr.py):
 * turning the greedy-search token ids into text, reading the `tokens.txt`
 * table, and the text tail of `transcribe_vietasr`.
 *
 * The file is given as its list of lines; reading it is left to the caller.
 */
module VietAsr {
  import opened Wrappers
  import opened Strings
  import Numerals
  import PostProcess

  /** The CTC blank symbol, never part of the text. */
  const BlankToken: string := "<blk>"

  /** SentencePiece's word-boundary mark U+2581, which becomes a space. */
  const Boundary: char := '▁'

  // ---------------------------------------------------------------------------
  // _tokens_to_text

  /** Whether the loop in `_tokens_to_text` keeps the piece for `id`: it is in range and not the blank. */
  predicate Kept(id: int, tokens: seq<string>) {
    0 <= id < |tokens| && tokens[id] != BlankToken
  }

  /** The `pieces` list of `_tokens_to_text`: the table entries of the kept ids, in order. */
  function KeptPieces(ids: seq<int>, tokens: seq<string>): (pieces: seq<string>)
    ensures |pieces| <= |ids|
    ensures forall k :: 0 <= k < |pieces| ==> pieces[k] != BlankToken && pieces[k] in tokens
    ensures |pieces| == 0 <==> forall k :: 0 <= k < |ids| ==> !Kept(ids[k], tokens)
    ensures forall k :: 0 <= k < |ids| && Kept(ids[k], tokens) ==> tokens[ids[k]] in pieces
    ensures |ids| == 1 ==> pieces == if Kept(ids[0], tokens) then [tokens[ids[0]]] else []
    decreases |ids|
  {
    if |ids| == 0 then []
    else
      var rest := KeptPieces(ids[1..], tokens);
      assert forall k :: 1 <= k < |ids| ==> ids[k] == ids[1..][k - 1];
      if Kept(ids[0], tokens) then [tokens[ids[0]]] + rest else rest
  }

  /** Keeping pieces commutes with concatenating id lists. */
  lemma {:induction false} KeptPiecesAppend(a: seq<int>, b: seq<int>, tokens: seq<string>)
    ensures KeptPieces(a + b, tokens) == KeptPieces(a, tokens) + KeptPieces(b, tokens)
    decreases |a|
  {
    if |a| > 0 {
      assert (a + b)[1..] == a[1..] + b;
      KeptPiecesAppend(a[1..], b, tokens);
    } else {
      assert a + b == b;
    }
  }

  /** The text of a list of pieces: concatenated, boundary marks turned into spaces, stripped. */
  function Detokenize(pieces: seq<string>): (r: string)
    ensures !Contains(r, [Boundary])
    ensures IsStripped(r)
    ensures |pieces| == 0 ==> r == ""
  {
    var spaced := Replace(Join("", pieces), [Boundary], " ");
    NoStartInOfHead(" ", [Boundary]);
    ReplaceRemovesAll(Join("", pieces), [Boundary], " ");
    StripKeepsAbsent(spaced, [Boundary]);
    Strip(spaced)
  }

  /** `_tokens_to_text`. */
  function TokensToText(ids: seq<int>, tokens: seq<string>): (r: string)
    ensures !Contains(r, [Boundary])
    ensures IsStripped(r)
    ensures (forall k :: 0 <= k < |ids| ==> !Kept(ids[k], tokens)) ==> r == ""
  {
    Detokenize(KeptPieces(ids, tokens))
  }

  /** The pieces SentencePiece emits for a list of words: each word with the boundary mark in front. */
  function WordPieces(ws: seq<string>): (pieces: seq<string>)
    ensures |pieces| == |ws|
  {
    if |ws| == 0 then [] else [[Boundary] + ws[0]] + WordPieces(ws[1..])
  }

  predicate PlainWord(w: string) {
    IsWord(w) && Boundary !in w
  }

  /** A boundary mark followed by a plain word becomes a space and the word. */
  lemma SpacedPiece(w: string)
    requires Boundary !in w
    ensures Replace([Boundary] + w, [Boundary], " ") == " " + w
  {
    CharNotContained(w, Boundary);
    ReplaceCharConcat([Boundary], w, Boundary, " ");
    ReplaceAtMatch([Boundary], [Boundary], " ");
    assert [Boundary][1..] == "";
  }

  lemma JoinWordPieces(ws: seq<string>)
    requires |ws| > 1
    ensures Join("", WordPieces(ws)) == ([Boundary] + ws[0]) + Join("", WordPieces(ws[1..]))
  {
    var ps := WordPieces(ws);
    assert ps[1..] == WordPieces(ws[1..]);
  }

  lemma SpacedCons(w: string, rest: string, restText: string)
    requires Boundary !in w && Replace(rest, [Boundary], " ") == " " + restText
    ensures Replace(([Boundary] + w) + rest, [Boundary], " ") == " " + (w + " " + restText)
  {
    SpacedPiece(w);
    ReplaceCharConcat([Boundary] + w, rest, Boundary, " ");
    Regroup(" ", w, restText);
  }

  lemma Regroup(sp: string, a: string, b: string)
    ensures (sp + a) + (sp + b) == sp + (a + sp + b)
  {
  }

  lemma {:induction false} SpacedWordPieces(ws: seq<string>)
    requires |ws| > 0 && forall k :: 0 <= k < |ws| ==> PlainWord(ws[k])
    ensures Replace(Join("", WordPieces(ws)), [Boundary], " ") == " " + Join(" ", ws)
    decreases |ws|
  {
    if |ws| > 1 {
      SpacedWordPieces(ws[1..]);
      JoinWordPieces(ws);
      SpacedCons(ws[0], Join("", WordPieces(ws[1..])), Join(" ", ws[1..]));
    } else {
      SpacedPiece(ws[0]);
      assert WordPieces(ws) == [[Boundary] + ws[0]];
    }
  }

  /** Detokenising the SentencePiece pieces of plain words gives the words joined by single spaces. */
  lemma WordPiecesRoundTrip(ws: seq<string>)
    requires forall k :: 0 <= k < |ws| ==> PlainWord(ws[k])
    ensures Detokenize(WordPieces(ws)) == Join(" ", ws)
  {
    if |ws| > 0 {
      SpacedWordPieces(ws);
      assert forall k :: 0 <= k < |ws| ==> |ws[k]| > 0 && IsStripped(ws[k]);
      JoinIsStripped(ws);
      StripLeadingSpace(Join(" ", ws));
    }
  }

  // ---------------------------------------------------------------------------
  // _read_tokens

  /** What an accepted line of `tokens.txt` contributes: the token text and its id. */
  datatype Entry = Entry(token: string, index: nat)

  /** The body of the loop in `_read_tokens` for one line: the entry it stores, or `None` for a skipped line. */
  function ParseLine(line: string): (r: Option<Entry>)
  {
    var stripped := Strip(line);
    if |stripped| == 0 || stripped[0] == '#' then None
    else ParseFields(Words(stripped))
  }

  /** The fields of a line that is neither blank nor a comment: the first is the token, the last its id. */
  function ParseFields(parts: seq<string>): (r: Option<Entry>)
  {
    if |parts| < 2 then None
    else match Numerals.ParseInt(parts[|parts| - 1])
      case None => None
      case Some(n) => if n < 0 then None else Some(Entry(parts[0], n))
  }

  lemma ParseFieldsAccepts(parts: seq<string>)
    ensures ParseFields(parts).Some? <==>
      |parts| >= 2 && Numerals.ParseInt(parts[|parts| - 1]).Some? && Numerals.ParseInt(parts[|parts| - 1]).value >= 0
    ensures ParseFields(parts).Some? ==>
      ParseFields(parts).value.token == parts[0] && ParseFields(parts).value.index as int == Numerals.ParseInt(parts[|parts| - 1]).value
  {
  }

  /** The skip conditions of `_read_tokens`, stated on the raw line. */
  lemma ParseLineAccepts(line: string)
    ensures ParseLine(line).Some? <==>
      && !AllSpace(line)
      && Strip(line)[0] != '#'
      && |Words(line)| >= 2
      && Numerals.ParseInt(Words(line)[|Words(line)| - 1]).Some?
      && Numerals.ParseInt(Words(line)[|Words(line)| - 1]).value >= 0
    ensures ParseLine(line).Some? ==>
      && ParseLine(line).value.token == Words(line)[0]
      && ParseLine(line).value.index as int == Numerals.ParseInt(Words(line)[|Words(line)| - 1]).value
  {
    WordsOfStrip(line);
    ParseFieldsAccepts(Words(line));
    if AllSpace(line) || Strip(line)[0] == '#' {
      assert ParseLine(line) == None;
    } else {
      assert ParseLine(line) == ParseFields(Words(line));
    }
  }

  /** A line "piece id" is read back as that entry. */
  lemma ParseLineOfEntry(token: string, index: nat)
    requires IsWord(token) && token[0] != '#'
    ensures ParseLine(token + " " + Numerals.Decimal(index)) == Some(Entry(token, index))
  {
    var d := Numerals.Decimal(index);
    var line := token + " " + d;
    assert IsWord(d) by {
      forall k | 0 <= k < |d| ensures !IsSpace(d[k]) {
        assert Numerals.IsDigit(d[k]);
      }
    }
    WordsAroundSpace(token, d);
    WordsOfWord(token);
    WordsOfWord(d);
    JoinIsStripped([token, d]);
    assert Join(" ", [token, d]) == line;
    StripOfStripped(line);
    Numerals.ParseDecimal(index);
  }

  /** One accepted line: the list padded with "" up to `index + 1`, then slot `index` set. */
  function Store(tokens: seq<string>, e: Entry): (r: seq<string>)
    ensures |r| == if e.index < |tokens| then |tokens| else e.index + 1
    ensures r[e.index] == e.token
    ensures forall k :: 0 <= k < |r| && k != e.index ==> r[k] == (if k < |tokens| then tokens[k] else "")
  {
    var padded := if e.index >= |tokens| then tokens + seq(e.index + 1 - |tokens|, _ => "") else tokens;
    padded[e.index := e.token]
  }

  /** The loop of `_read_tokens` over the parsed lines, first to last. */
  function StoreAll(es: seq<Option<Entry>>): seq<string>
    decreases |es|
  {
    if |es| == 0 then []
    else
      var before := StoreAll(es[..|es| - 1]);
      match es[|es| - 1]
      case None => before
      case Some(e) => Store(before, e)
  }

  /** Every line of the file, parsed on its own. */
  function ParseLines(lines: seq<string>): (es: seq<Option<Entry>>)
    ensures |es| == |lines| && forall k :: 0 <= k < |lines| ==> es[k] == ParseLine(lines[k])
  {
    seq(|lines|, k requires 0 <= k < |lines| => ParseLine(lines[k]))
  }

  /** `_read_tokens` on the lines of `tokens.txt`. */
  function ReadTokens(lines: seq<string>): seq<string> {
    StoreAll(ParseLines(lines))
  }

  /** Entry `k` stores a token at slot `x`. */
  predicate SetsSlot(es: seq<Option<Entry>>, k: nat, x: nat) {
    k < |es| && es[k].Some? && es[k].value.index == x
  }

  /** The last entry that stores a token at `x`, if any. */
  function LastSetter(es: seq<Option<Entry>>, x: nat): (r: Option<nat>)
    ensures r.Some? ==> SetsSlot(es, r.value, x) && forall k :: r.value < k < |es| ==> !SetsSlot(es, k, x)
    ensures r.None? ==> forall k :: 0 <= k < |es| ==> !SetsSlot(es, k, x)
    decreases |es|
  {
    if |es| == 0 then None
    else if SetsSlot(es, |es| - 1, x) then Some(|es| - 1)
    else
      var init := es[..|es| - 1];
      assert forall k :: 0 <= k < |init| ==> (SetsSlot(init, k, x) <==> SetsSlot(es, k, x));
      LastSetter(init, x)
  }

  /** The declarative content of slot `x`: the token of the last entry for `x`, or "" when there is none. */
  function SlotValue(es: seq<Option<Entry>>, x: nat): string {
    match LastSetter(es, x)
    case None => ""
    case Some(k) => es[k].value.token
  }

  /** How one more entry changes the declarative slot value. */
  lemma SlotValueStep(es: seq<Option<Entry>>, x: nat)
    requires |es| > 0
    ensures SlotValue(es, x) ==
      if SetsSlot(es, |es| - 1, x) then es[|es| - 1].value.token else SlotValue(es[..|es| - 1], x)
  {
  }

  /**
   * The table built from the parsed lines: its length is one more than the
   * largest accepted id (zero when no line is accepted), and every slot holds
   * the token of the last accepted line with that id, or "" when there is none.
   */
  lemma {:induction false} StoreAllSpec(es: seq<Option<Entry>>)
    ensures forall k :: 0 <= k < |es| && es[k].Some? ==> es[k].value.index < |StoreAll(es)|
    ensures |StoreAll(es)| > 0 ==> exists k :: 0 <= k < |es| && es[k].Some? && es[k].value.index + 1 == |StoreAll(es)|
    ensures |StoreAll(es)| == 0 <==> forall k :: 0 <= k < |es| ==> es[k].None?
    ensures forall x :: 0 <= x < |StoreAll(es)| ==> StoreAll(es)[x] == SlotValue(es, x)
    decreases |es|
  {
    if |es| > 0 {
      var init := es[..|es| - 1];
      var before := StoreAll(init);
      var r := StoreAll(es);
      StoreAllSpec(init);
      assert forall k :: 0 <= k < |init| ==> es[k] == init[k];
      forall x | 0 <= x < |r| ensures r[x] == SlotValue(es, x) {
        SlotValueStep(es, x);
      }
      if |r| > 0 {
        if es[|es| - 1].Some? && es[|es| - 1].value.index + 1 >= |before| {
          assert es[|es| - 1].value.index + 1 == |r|;
        } else {
          var k :| 0 <= k < |init| && init[k].Some? && init[k].value.index + 1 == |before|;
          assert es[k] == init[k];
        }
      }
    }
  }

  /** `_read_tokens` on the lines of a file: the table described line by line. */
  lemma ReadTokensSpec(lines: seq<string>)
    ensures forall k :: 0 <= k < |lines| && ParseLine(lines[k]).Some? ==> ParseLine(lines[k]).value.index < |ReadTokens(lines)|
    ensures |ReadTokens(lines)| > 0 ==>
      exists k :: 0 <= k < |lines| && ParseLine(lines[k]).Some? && ParseLine(lines[k]).value.index + 1 == |ReadTokens(lines)|
    ensures |ReadTokens(lines)| == 0 <==> forall k :: 0 <= k < |lines| ==> ParseLine(lines[k]).None?
    ensures forall x :: 0 <= x < |ReadTokens(lines)| ==> ReadTokens(lines)[x] == SlotValue(ParseLines(lines), x)
  {
    var es := ParseLines(lines);
    StoreAllSpec(es);
    StoreAllOfLines(lines, es, ParseLine);
  }

  /** The length facts of `StoreAllSpec`, moved from the entries to the lines they were parsed from by `parse`. */
  lemma StoreAllOfLines(lines: seq<string>, es: seq<Option<Entry>>, parse: string -> Option<Entry>)
    requires |es| == |lines| && forall k :: 0 <= k < |lines| ==> es[k] == parse(lines[k])
    ensures forall k :: 0 <= k < |lines| && parse(lines[k]).Some? ==> parse(lines[k]).value.index < |StoreAll(es)|
    ensures |StoreAll(es)| > 0 ==>
      exists k :: 0 <= k < |lines| && parse(lines[k]).Some? && parse(lines[k]).value.index + 1 == |StoreAll(es)|
    ensures |StoreAll(es)| == 0 <==> forall k :: 0 <= k < |lines| ==> parse(lines[k]).None?
  {
    StoreAllSpec(es);
    if |StoreAll(es)| > 0 {
      var k :| 0 <= k < |es| && es[k].Some? && es[k].value.index + 1 == |StoreAll(es)|;
      assert es[k] == parse(lines[k]);
    }
  }

  /** The check after `_read_tokens` in `_load_resources`: a file with no accepted line is an error. */
  function LoadTokens(lines: seq<string>): (r: Option<seq<string>>)
    ensures r.None? <==> forall k :: 0 <= k < |lines| ==> ParseLine(lines[k]).None?
    ensures r.Some? ==> |r.value| > 0
  {
    ReadTokensSpec(lines);
    var tokens := ReadTokens(lines);
    if |tokens| == 0 then None else Some(tokens)
  }

  // ---------------------------------------------------------------------------
  // The text tail of transcribe_vietasr

  /**
   * From the greedy-search hypotheses to the final transcript. `casing` stands
   * for `WordCasing.get_function(model.casing)` and `decodeMeta` for the meta
   * decoder; neither has source in this model.
   */
  function TranscribeTail(hypotheses: seq<seq<int>>, tokens: seq<string>, casing: string -> string,
                          languageFamily: string, decodeMeta: string -> string): (r: string)
    ensures |hypotheses| == 0 ==> r == ""
  {
    if |hypotheses| == 0 then ""
    else
      var text := TokensToText(hypotheses[0], tokens);
      if text == "" then ""
      else
        var cased := Strip(casing(text));
        if cased == "" then "" else PostProcess.FinalizeTranscript(languageFamily, cased, decodeMeta)
  }

  /** The tail's own emptiness checks and strip are redundant: the result is the finalised cased text of the first hypothesis. */
  lemma TranscribeTailIsFinalize(hypotheses: seq<seq<int>>, tokens: seq<string>, casing: string -> string,
                                 languageFamily: string, decodeMeta: string -> string)
    ensures TranscribeTail(hypotheses, tokens, casing, languageFamily, decodeMeta)
         == if |hypotheses| == 0 || TokensToText(hypotheses[0], tokens) == "" then ""
            else PostProcess.FinalizeTranscript(languageFamily, casing(TokensToText(hypotheses[0], tokens)), decodeMeta)
  {
    if |hypotheses| > 0 {
      PostProcess.FinalizeAfterCasing(languageFamily, casing(TokensToText(hypotheses[0], tokens)), decodeMeta);
    }
  }
}
