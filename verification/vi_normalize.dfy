/**
 * Normalisation of Vietnamese ASR transcripts (speech_to_phrase/vi_normalize.py):
 * runs of spelled-out number words become decimal digits in a few contexts,
 * the spellings of "tv" and "gara" are unified, and "hủy" is written "huỷ".
 *
 * Vietnamese words are opaque string literals with the code points the
 * source uses (precomposed NFC forms).
 */
module ViNormalize {
  import opened Wrappers
  import opened Strings
  import Numerals

  /** `_NUMBER_UNITS`: the one-digit number words and their values. */
  const Units: map<string, nat> := map[
    "không" := 0, "một" := 1, "mốt" := 1, "hai" := 2, "ba" := 3, "bốn" := 4, "tư" := 4,
    "năm" := 5, "lăm" := 5, "sáu" := 6, "bảy" := 7, "tám" := 8, "chín" := 9]

  /** The words of `_NUMBER_TOKENS` that are not units: ten, tens, the zero filler and hundred. */
  const Scales: set<string> := {"mười", "mươi", "linh", "lẻ", "trăm"}

  /** `_NUMBER_TOKENS`. */
  const NumberTokens: set<string> := Units.Keys + Scales

  /** `_NUMBER_FOLLOWERS`: words after which a run of number words becomes digits. */
  const Followers: set<string> := {"giờ", "phút", "giây", "ngày", "tháng", "năm", "độ", "phần", "rưỡi"}

  // ---------------------------------------------------------------------------
  // _words_to_number

  /** The loop state of `_words_to_number`: the running total and whether a word has set it. */
  datatype Tally = Tally(total: nat, valueSet: bool)

  /** One iteration of the loop in `_words_to_number`; `None` is its early `return None`. */
  function Step(t: Tally, w: string): Option<Tally> {
    if w == "mười" then Some(Tally(if t.total == 0 then 10 else t.total + 10, true))
    else if w == "mươi" then Some(Tally((if t.total != 0 then t.total else 1) * 10, true))
    else if w == "linh" || w == "lẻ" then Some(Tally(t.total, true))
    else if w == "trăm" then Some(Tally((if t.total != 0 then t.total else 1) * 100, true))
    else if w in Units then Some(Tally(if t.total >= 10 || t.valueSet then t.total + Units[w] else Units[w], true))
    else None
  }

  /** The whole loop of `_words_to_number`, from state `t`. */
  function Fold(t: Tally, ws: seq<string>): Option<Tally>
    decreases |ws|
  {
    if |ws| == 0 then Some(t)
    else match Step(t, ws[0])
      case None => None
      case Some(t') => Fold(t', ws[1..])
  }

  predicate AllNumberWords(ws: seq<string>) {
    forall k :: 0 <= k < |ws| ==> ws[k] in NumberTokens
  }

  lemma StepAccepts(t: Tally, w: string)
    ensures Step(t, w).Some? <==> w in NumberTokens
    ensures Step(t, w).Some? ==> Step(t, w).value.valueSet
  {
  }

  lemma {:induction false} FoldAccepts(t: Tally, ws: seq<string>)
    ensures Fold(t, ws).Some? <==> AllNumberWords(ws)
    ensures Fold(t, ws).Some? && (|ws| > 0 || t.valueSet) ==> Fold(t, ws).value.valueSet
    decreases |ws|
  {
    if |ws| > 0 {
      StepAccepts(t, ws[0]);
      if Step(t, ws[0]).Some? {
        FoldAccepts(Step(t, ws[0]).value, ws[1..]);
        assert AllNumberWords(ws) <==> ws[0] in NumberTokens && AllNumberWords(ws[1..]) by {
          if ws[0] in NumberTokens && AllNumberWords(ws[1..]) {
            forall k | 0 <= k < |ws| ensures ws[k] in NumberTokens {
              if k > 0 { assert ws[k] == ws[1..][k - 1]; }
            }
          }
        }
      }
    }
  }

  /** `_words_to_number`: the value of a list of number words, `None` when the list is empty or holds another word. */
  function WordsToNumber(ws: seq<string>): (r: Option<nat>)
    ensures r.None? <==> |ws| == 0 || !AllNumberWords(ws)
  {
    FoldAccepts(Tally(0, false), ws);
    if |ws| == 0 then None
    else match Fold(Tally(0, false), ws)
      case None => None
      case Some(t) => if t.valueSet then Some(t.total) else None
  }

  /** "không" alone is worth zero. */
  lemma LoneKhong()
    ensures WordsToNumber(["không"]) == Some(0)
  {
    assert Step(Tally(0, false), "không") == Some(Tally(0, true));
    assert ["không"][1..] == [];
  }

  /** "mười hai" is twelve: "mười" sets ten and the unit is added. */
  lemma Twelve()
    ensures WordsToNumber(["mười", "hai"]) == Some(12)
  {
    var ws := ["mười", "hai"];
    assert Step(Tally(0, false), "mười") == Some(Tally(10, true));
    assert Step(Tally(10, true), "hai") == Some(Tally(12, true));
    assert ws[1..] == ["hai"] && ws[1..][1..] == [];
  }

  /** "hai mươi lăm" is twenty-five: "mươi" multiplies the tens digit. */
  lemma TwentyFive()
    ensures WordsToNumber(["hai", "mươi", "lăm"]) == Some(25)
  {
    var ws := ["hai", "mươi", "lăm"];
    assert Step(Tally(0, false), "hai") == Some(Tally(2, true));
    assert Step(Tally(2, true), "mươi") == Some(Tally(20, true));
    assert Step(Tally(20, true), "lăm") == Some(Tally(25, true));
    assert ws[1..] == ["mươi", "lăm"] && ws[1..][1..] == ["lăm"] && ws[1..][1..][1..] == [];
  }

  /** "một trăm linh năm" is one hundred and five: "linh" adds nothing. */
  lemma OneHundredFive()
    ensures WordsToNumber(["một", "trăm", "linh", "năm"]) == Some(105)
  {
    var ws := ["một", "trăm", "linh", "năm"];
    assert Step(Tally(0, false), "một") == Some(Tally(1, true));
    assert Step(Tally(1, true), "trăm") == Some(Tally(100, true));
    assert Step(Tally(100, true), "linh") == Some(Tally(100, true));
    assert Step(Tally(100, true), "năm") == Some(Tally(105, true));
    assert ws[1..] == ["trăm", "linh", "năm"] && ws[1..][1..] == ["linh", "năm"];
    assert ws[1..][1..][1..] == ["năm"] && ws[1..][1..][1..][1..] == [];
  }

  // ---------------------------------------------------------------------------
  // Small values: only units and the zero filler, summed

  /** "mười", "mươi" and "trăm", the words that lift a total to ten or more. */
  predicate IsBigWord(w: string) {
    w == "mười" || w == "mươi" || w == "trăm"
  }

  /** The value a word adds when it is a unit; the other small words add nothing. */
  function UnitValue(w: string): nat {
    if w in Units then Units[w] else 0
  }

  function UnitSum(ws: seq<string>): nat
  {
    if |ws| == 0 then 0
    else UnitValue(ws[0]) + UnitSum(ws[1..])
  }

  lemma {:induction false} UnitSumSuffix(ws: seq<string>, m: nat)
    requires m <= |ws|
    ensures UnitSum(ws[m..]) <= UnitSum(ws)
    decreases m
  {
    if m > 0 {
      UnitSumSuffix(ws[1..], m - 1);
      assert ws[1..][m - 1..] == ws[m..];
    }
  }

  /** Once the total reaches ten it stays there. */
  lemma {:induction false} FoldStaysBig(t: Tally, ws: seq<string>)
    ensures Fold(t, ws).Some? && t.total >= 10 ==> Fold(t, ws).value.total >= 10
    decreases |ws|
  {
    if |ws| > 0 && Step(t, ws[0]).Some? {
      FoldStaysBig(Step(t, ws[0]).value, ws[1..]);
    }
  }

  /** A run holding "mười", "mươi" or "trăm" is worth ten or more. */
  lemma {:induction false} FoldWithBigWord(t: Tally, ws: seq<string>, b: nat)
    requires b < |ws| && IsBigWord(ws[b])
    ensures Fold(t, ws).Some? ==> Fold(t, ws).value.total >= 10
    decreases |ws|
  {
    if Step(t, ws[0]).Some? {
      var t' := Step(t, ws[0]).value;
      if b == 0 {
        FoldStaysBig(t', ws[1..]);
      } else {
        FoldWithBigWord(t', ws[1..], b - 1);
      }
    }
  }

  /** One word of the loop that does not return early. */
  lemma FoldThroughStep(t: Tally, ws: seq<string>, t': Tally)
    requires |ws| > 0 && Step(t, ws[0]) == Some(t')
    ensures Fold(t, ws) == Fold(t', ws[1..])
  {
  }

  /** A unit adds its value (or sets it, on a fresh tally) and a filler adds nothing. */
  lemma StepSmall(t: Tally, w: string)
    requires w in NumberTokens && !IsBigWord(w)
    requires !t.valueSet ==> t.total == 0
    ensures Step(t, w) == Some(Tally(t.total + UnitValue(w), true))
  {
    ScalesAreNotUnits();
    if w in Units {
      assert !IsBigWord(w) && w != "linh" && w != "lẻ";
    } else {
      assert w in Scales;
    }
  }

  /** No word of `_NUMBER_TOKENS` is both a unit and one of the other number words. */
  lemma ScalesAreNotUnits()
    ensures "mười" !in Units && "mươi" !in Units && "trăm" !in Units
    ensures "linh" !in Units && "lẻ" !in Units
  {
  }

  /** A run of units and fillers only: number words other than ten, tens and hundred. */
  predicate SmallRun(ws: seq<string>)
    decreases |ws|
  {
    |ws| == 0 || (ws[0] in NumberTokens && !IsBigWord(ws[0]) && SmallRun(ws[1..]))
  }

  lemma {:induction false} SmallRunOf(ws: seq<string>)
    requires AllNumberWords(ws) && forall k :: 0 <= k < |ws| ==> !IsBigWord(ws[k])
    ensures SmallRun(ws)
    decreases |ws|
  {
    if |ws| > 0 {
      var rest := ws[1..];
      assert forall k :: 0 <= k < |rest| ==> rest[k] == ws[k + 1];
      SmallRunOf(rest);
    }
  }

  lemma {:induction false} SmallRunSuffix(ws: seq<string>, m: nat)
    requires m <= |ws| && SmallRun(ws)
    ensures SmallRun(ws[m..])
    decreases m
  {
    if m > 0 {
      SmallRunSuffix(ws[1..], m - 1);
      assert ws[1..][m - 1..] == ws[m..];
    }
  }

  /** Over units and fillers alone the fold adds the unit values. */
  lemma {:induction false} FoldSmall(t: Tally, ws: seq<string>)
    requires SmallRun(ws)
    requires !t.valueSet ==> t.total == 0
    ensures Fold(t, ws) == Some(Tally(t.total + UnitSum(ws), t.valueSet || |ws| > 0))
    decreases |ws|
  {
    if |ws| > 0 {
      var w := ws[0];
      StepSmall(t, w);
      var t' := Tally(t.total + UnitValue(w), true);
      var rest := ws[1..];
      FoldSmall(t', rest);
      FoldThroughStep(t, ws, t');
      var r := Tally(t'.total + UnitSum(rest), true);
      FoldSmallCons(t, ws, t', r);
      assert Fold(t, ws) == Some(r);
    } else {
      assert Fold(t, ws) == Some(t);
    }
  }

  /** The inductive step of `FoldSmall`: the first word adds its value to the rest's sum. */
  lemma FoldSmallCons(t: Tally, ws: seq<string>, t': Tally, r: Tally)
    requires |ws| > 0 && t' == Tally(t.total + UnitValue(ws[0]), true)
    requires r == Tally(t'.total + UnitSum(ws[1..]), true)
    ensures r == Tally(t.total + UnitSum(ws), true)
  {
    assert UnitSum(ws) == UnitValue(ws[0]) + UnitSum(ws[1..]);
  }

  /** If a run is worth less than ten, so is every suffix of it. */
  lemma SuffixStaysSmall(ws: seq<string>, m: nat)
    requires 0 < m < |ws| && AllNumberWords(ws)
    ensures AllNumberWords(ws[m..])
    ensures WordsToNumber(ws).value < 10 ==> WordsToNumber(ws[m..]).value < 10
  {
    assert AllNumberWords(ws[m..]) by {
      forall k | 0 <= k < |ws| - m ensures ws[m..][k] in NumberTokens {
        assert ws[m..][k] == ws[m + k];
      }
    }
    if forall k :: 0 <= k < |ws| ==> !IsBigWord(ws[k]) {
      SmallRunOf(ws);
      SmallRunSuffix(ws, m);
      FoldSmall(Tally(0, false), ws);
      FoldSmall(Tally(0, false), ws[m..]);
      UnitSumSuffix(ws, m);
    } else {
      var b :| 0 <= b < |ws| && IsBigWord(ws[b]);
      FoldWithBigWord(Tally(0, false), ws, b);
    }
  }

  // ---------------------------------------------------------------------------
  // normalize_vietnamese_numbers

  /** End of the maximal run of number words that starts at `i` (the inner `while` loop). */
  function RunEnd(ts: seq<string>, i: nat): (j: nat)
    requires i <= |ts|
    ensures i <= j <= |ts|
    ensures forall k :: i <= k < j ==> ts[k] in NumberTokens
    ensures j == |ts| || ts[j] !in NumberTokens
    decreases |ts| - i
  {
    if i < |ts| && ts[i] in NumberTokens then RunEnd(ts, i + 1) else i
  }

  lemma RunEndInside(ts: seq<string>, i: nat, k: nat)
    requires i <= |ts| && i <= k <= RunEnd(ts, i)
    ensures RunEnd(ts, k) == RunEnd(ts, i)
    decreases RunEnd(ts, i) - k
  {
    if k < RunEnd(ts, i) {
      RunEndInside(ts, i, k + 1);
    }
  }

  /** `tokens[k]`, or "" off either end. */
  function TokenAt(ts: seq<string>, k: int): string {
    if 0 <= k < |ts| then ts[k] else ""
  }

  /** `next_token`: the token after the run, or "" at the end of the text. */
  function NextToken(ts: seq<string>, j: nat): string
    requires j <= |ts|
  {
    if j < |ts| then ts[j] else ""
  }

  /** `prev_token`: the token before the run, or "" at the start of the text. */
  function PrevToken(ts: seq<string>, i: nat): string
    requires i <= |ts|
  {
    if i > 0 then ts[i - 1] else ""
  }

  /** The `should_convert` flag, with its four branches as written. */
  predicate ShouldConvert(ts: seq<string>, j: nat, value: Option<nat>)
    requires j <= |ts|
  {
    var next := NextToken(ts, j);
    if next in Followers then true
    else if next == "phần" && j + 1 < |ts| && TokenAt(ts, j + 1) == "trăm" then true
    else if next == "rưỡi" then true
    else j == |ts| && value.Some? && value.value != 0 && value.value >= 10
  }

  /** Whether the scan replaces the tokens `ts[i..j]` by their value. */
  predicate Converts(ts: seq<string>, i: nat, j: nat)
    requires i <= j <= |ts|
  {
    var value := WordsToNumber(ts[i..j]);
    && value.Some?
    && ShouldConvert(ts, j, value)
    && !(value.value == 0 && ts[i..j] == ["không"])
    && !(ts[i..j] == ["trăm"] && PrevToken(ts, i) == "phần")
  }

  /** The decimal token that replaces the run `ts[i..j]`. */
  function RunDigits(ts: seq<string>, i: nat, j: nat): string
    requires i <= j <= |ts| && WordsToNumber(ts[i..j]).Some?
  {
    Numerals.Decimal(WordsToNumber(ts[i..j]).value)
  }

  /** The outer `while` loop of `normalize_vietnamese_numbers` from index `i`: the tokens it appends. */
  function Scan(ts: seq<string>, i: nat): seq<string>
    requires i <= |ts|
    decreases |ts| - i
  {
    if i == |ts| then []
    else if ts[i] in NumberTokens && Converts(ts, i, RunEnd(ts, i)) then
      [RunDigits(ts, i, RunEnd(ts, i))] + Scan(ts, RunEnd(ts, i))
    else
      [ts[i]] + Scan(ts, i + 1)
  }

  /** `normalize_vietnamese_numbers`. */
  function NormalizeNumbers(text: string): (r: string)
    ensures AllSpace(text) ==> r == text
  {
    WordsOfBlank(text);
    var ts := Words(text);
    if |ts| == 0 then text else Join(" ", Scan(ts, 0))
  }

  // ---------------------------------------------------------------------------
  // The conversion described run by run

  /**
   * The two cases in which a run becomes digits, without the dead branches of
   * `should_convert`: a follower word comes next, or the run ends the text and
   * is worth ten or more; a lone "không", and a lone "trăm" after "phần", stay words.
   */
  predicate RunConverts(ts: seq<string>, i: nat, j: nat)
    requires i < j <= |ts| && AllNumberWords(ts[i..j])
  {
    var value := WordsToNumber(ts[i..j]).value;
    && (NextToken(ts, j) in Followers || (j == |ts| && value >= 10))
    && ts[i..j] != ["không"]
    && !(ts[i..j] == ["trăm"] && PrevToken(ts, i) == "phần")
  }

  /**
   * The reference reading of the conversion: the text is cut into maximal
   * runs of number words and single other tokens; each run is either
   * replaced whole by one decimal token, in the two cases of `RunConverts`,
   * or kept whole.
   */
  function ByRuns(ts: seq<string>, i: nat): seq<string>
    requires i <= |ts|
    decreases |ts| - i
  {
    if i == |ts| then []
    else if ts[i] !in NumberTokens then [ts[i]] + ByRuns(ts, i + 1)
    else
      var j := RunEnd(ts, i);
      (if RunConverts(ts, i, j) then [RunDigits(ts, i, j)] else ts[i..j]) + ByRuns(ts, j)
  }

  /** The "phần trăm" and "rưỡi" branches of `should_convert` are subsumed by the follower test. */
  lemma ConvertsIsRunConverts(ts: seq<string>, i: nat, j: nat)
    requires i < j <= |ts| && AllNumberWords(ts[i..j])
    ensures Converts(ts, i, j) <==> RunConverts(ts, i, j)
  {
    LoneKhong();
  }

  /** "năm" is a number word, so it is swallowed by the run and never acts as the follower after one. */
  lemma NamNeverFollows(ts: seq<string>, i: nat)
    requires i <= |ts|
    ensures NextToken(ts, RunEnd(ts, i)) != "năm"
  {
  }

  /** A run that is not converted has no converted proper suffix either. */
  lemma SuffixNotConverted(ts: seq<string>, i: nat, k: nat)
    requires i <= |ts| && i < k < RunEnd(ts, i) && !Converts(ts, i, RunEnd(ts, i))
    ensures RunEnd(ts, k) == RunEnd(ts, i)
    ensures !Converts(ts, k, RunEnd(ts, i))
  {
    var j := RunEnd(ts, i);
    RunEndInside(ts, i, k);
    var ws := ts[i..j];
    assert AllNumberWords(ws);
    assert |ws| >= 2 && ws != ["không"] && ws != ["trăm"];
    assert !ShouldConvert(ts, j, WordsToNumber(ws));
    SuffixStaysSmall(ws, k - i);
    assert ws[k - i..] == ts[k..j];
    assert !ShouldConvert(ts, j, WordsToNumber(ts[k..j]));
  }

  /** One step of the scan that copies the token at `k`. */
  lemma ScanCopyStep(ts: seq<string>, k: nat)
    requires k < |ts| && !(ts[k] in NumberTokens && Converts(ts, k, RunEnd(ts, k)))
    ensures Scan(ts, k) == [ts[k]] + Scan(ts, k + 1)
  {
  }

  /** One step of the scan that converts the run starting at `k`. */
  lemma ScanConvertStep(ts: seq<string>, k: nat)
    requires k < |ts| && ts[k] in NumberTokens && Converts(ts, k, RunEnd(ts, k))
    ensures Scan(ts, k) == [RunDigits(ts, k, RunEnd(ts, k))] + Scan(ts, RunEnd(ts, k))
  {
  }

  lemma ConsSlice<T>(s: seq<T>, k: nat, j: nat, tail: seq<T>)
    requires k < j <= |s|
    ensures [s[k]] + (s[k + 1..j] + tail) == s[k..j] + tail
  {
    assert s[k..j] == [s[k]] + s[k + 1..j];
  }

  lemma EmptySlice<T>(s: seq<T>, k: nat, tail: seq<T>)
    requires k <= |s|
    ensures s[k..k] + tail == tail
  {
  }

  /** One step of the run-by-run reading over a run that is kept. */
  lemma ByRunsKeepStep(ts: seq<string>, i: nat)
    requires i < |ts| && ts[i] in NumberTokens && !Converts(ts, i, RunEnd(ts, i))
    ensures ByRuns(ts, i) == ts[i..RunEnd(ts, i)] + ByRuns(ts, RunEnd(ts, i))
  {
    ConvertsIsRunConverts(ts, i, RunEnd(ts, i));
  }

  /** Where the scan copies one token per step from `k` to `j`, it produces the slice followed by the scan from `j`. */
  lemma {:induction false} ScanCopyChain(ts: seq<string>, k: nat, j: nat)
    requires k <= j <= |ts|
    requires forall m :: k <= m < j ==> Scan(ts, m) == [ts[m]] + Scan(ts, m + 1)
    ensures Scan(ts, k) == ts[k..j] + Scan(ts, j)
    decreases j - k
  {
    if k < j {
      ScanCopyChain(ts, k + 1, j);
      ConsSlice(ts, k, j, Scan(ts, j));
    } else {
      EmptySlice(ts, k, Scan(ts, j));
    }
  }

  /** Inside a run that is not converted, the scan copies the rest of the run token by token. */
  lemma ScanCopiesRun(ts: seq<string>, i: nat, k: nat)
    requires i < |ts| && i < k <= RunEnd(ts, i) && ts[i] in NumberTokens && !Converts(ts, i, RunEnd(ts, i))
    ensures Scan(ts, k) == ts[k..RunEnd(ts, i)] + Scan(ts, RunEnd(ts, i))
  {
    var j := RunEnd(ts, i);
    forall m | k <= m < j
      ensures Scan(ts, m) == [ts[m]] + Scan(ts, m + 1)
    {
      CopyInsideRun(ts, i, m);
    }
    ScanCopyChain(ts, k, j);
  }

  /** Inside a run that is not converted, every later position is copied as it is. */
  lemma CopyInsideRun(ts: seq<string>, i: nat, m: nat)
    requires i < |ts| && i < m < RunEnd(ts, i) && ts[i] in NumberTokens && !Converts(ts, i, RunEnd(ts, i))
    ensures Scan(ts, m) == [ts[m]] + Scan(ts, m + 1)
  {
    SuffixNotConverted(ts, i, m);
    ScanCopyStep(ts, m);
  }

  /** The scan over a kept run agrees with the run-by-run reading, given that they agree after the run. */
  lemma ScanOverKeptRun(ts: seq<string>, i: nat)
    requires i < |ts| && ts[i] in NumberTokens && !Converts(ts, i, RunEnd(ts, i))
    requires Scan(ts, RunEnd(ts, i)) == ByRuns(ts, RunEnd(ts, i))
    ensures Scan(ts, i) == ByRuns(ts, i)
  {
    var j := RunEnd(ts, i);
    var tail := Scan(ts, j);
    ScanCopyStep(ts, i);
    ScanCopiesRun(ts, i, i + 1);
    ByRunsKeepStep(ts, i);
    ConsSlice(ts, i, j, tail);
  }

  /** The token-by-token scan, with its step back into a run it did not convert, agrees with the run-by-run reading. */
  lemma {:induction false} ScanIsByRuns(ts: seq<string>, i: nat)
    requires i <= |ts|
    ensures Scan(ts, i) == ByRuns(ts, i)
    decreases |ts| - i
  {
    if i < |ts| {
      if ts[i] !in NumberTokens {
        ScanIsByRuns(ts, i + 1);
      } else {
        ScanIsByRuns(ts, RunEnd(ts, i));
        ConvertsIsRunConverts(ts, i, RunEnd(ts, i));
        if !Converts(ts, i, RunEnd(ts, i)) {
          ScanOverKeptRun(ts, i);
        }
      }
    }
  }

  /** Every token the scan emits is a word: a copied token, or a decimal numeral. */
  lemma {:induction false} ScanEmitsWords(ts: seq<string>, i: nat)
    requires i <= |ts| && AllWords(ts)
    ensures AllWords(Scan(ts, i))
    decreases |ts| - i
  {
    if i < |ts| {
      if ts[i] in NumberTokens && Converts(ts, i, RunEnd(ts, i)) {
        var j := RunEnd(ts, i);
        ScanEmitsWords(ts, j);
        ScanConvertStep(ts, i);
        DigitsAreWord(RunDigits(ts, i, j));
        AllWordsCons(RunDigits(ts, i, j), Scan(ts, j));
      } else {
        ScanEmitsWords(ts, i + 1);
        ScanCopyStep(ts, i);
        AllWordsCons(ts[i], Scan(ts, i + 1));
      }
    }
  }

  /** A decimal numeral is one `split()` item. */
  lemma DigitsAreWord(d: string)
    requires |d| > 0 && Numerals.AllDigits(d)
    ensures IsWord(d)
  {
    forall k | 0 <= k < |d|
      ensures !IsSpace(d[k])
    {
      assert Numerals.IsDigit(d[k]);
    }
  }

  /** The tokens of the normalised text are exactly the run-by-run conversion of the input's tokens. */
  lemma NormalizeNumbersTokens(text: string)
    requires !AllSpace(text)
    ensures Words(NormalizeNumbers(text)) == ByRuns(Words(text), 0)
  {
    var ts := Words(text);
    WordsOfBlank(text);
    ScanEmitsWords(ts, 0);
    JoinThenSplit(Scan(ts, 0));
    ScanIsByRuns(ts, 0);
  }

  /** Without number words the run-by-run reading copies every token. */
  lemma {:induction false} ByRunsWithoutNumbers(ts: seq<string>, i: nat)
    requires i <= |ts| && forall k :: i <= k < |ts| ==> ts[k] !in NumberTokens
    ensures ByRuns(ts, i) == ts[i..]
    decreases |ts| - i
  {
    if i < |ts| {
      ByRunsWithoutNumbers(ts, i + 1);
      assert ts[i..] == [ts[i]] + ts[i + 1..];
    }
  }

  /** Text without number words only has its whitespace collapsed to single spaces. */
  lemma NumbersWithoutNumberWords(text: string)
    requires !AllSpace(text)
    requires forall k :: 0 <= k < |Words(text)| ==> Words(text)[k] !in NumberTokens
    ensures NormalizeNumbers(text) == Join(" ", Words(text))
  {
    var ts := Words(text);
    WordsOfBlank(text);
    ScanIsByRuns(ts, 0);
    ByRunsWithoutNumbers(ts, 0);
    assert ts[0..] == ts;
  }

  // ---------------------------------------------------------------------------
  // normalize_cancellation_terms and normalize_vietnamese_transcript

  /** `normalize_cancellation_terms`: "hủy" and "Hủy" are rewritten "huỷ" and "Huỷ" (the tone mark moves to the "y"). */
  function NormalizeCancellation(text: string): (r: string)
    ensures !Contains(r, "hủy") && !Contains(r, "Hủy")
    ensures |r| == |text|
    ensures !Contains(text, "hủy") && !Contains(text, "Hủy") ==> r == text
  {
    var once := Replace(text, "hủy", "huỷ");
    CancellationRemovesOldSpelling(text);
    Replace(once, "Hủy", "Huỷ")
  }

  /** `normalize_cancellation_terms` changes nothing outside the occurrences of the two old spellings. */
  lemma CancellationChangesOnlyOldSpellings(text: string, q: nat)
    requires q < |text| && NormalizeCancellation(text)[q] != text[q]
    ensures || (exists m :: m <= q < m + 3 && OccursAt(text, "hủy", m) && NormalizeCancellation(text)[q] == "huỷ"[q - m])
            || (exists m :: m <= q < m + 3 && OccursAt(text, "Hủy", m) && NormalizeCancellation(text)[q] == "Huỷ"[q - m])
  {
    var upper := "Hủy";
    assert upper[0] !in "huỷ" && upper[1] !in "huỷ" && upper[2] !in "huỷ";
    TwoReplacesChangeOnlyMatches(text, "hủy", "huỷ", upper, "Huỷ", q);
  }

  /** Every occurrence of an old spelling in the input holds the new spelling in the output, at the same place. */
  lemma CancellationRewritesEveryOldSpelling(text: string, m: nat)
    ensures OccursAt(text, "hủy", m) ==> NormalizeCancellation(text)[m..m + 3] == "huỷ"
    ensures OccursAt(text, "Hủy", m) ==> NormalizeCancellation(text)[m..m + 3] == "Huỷ"
  {
    if OccursAt(text, "hủy", m) {
      CancellationRewritesLower(text, m);
    }
    if OccursAt(text, "Hủy", m) {
      CancellationRewritesUpper(text, m);
    }
  }

  lemma CancellationRewritesLower(text: string, m: nat)
    requires OccursAt(text, "hủy", m)
    ensures NormalizeCancellation(text)[m..m + 3] == "huỷ"
  {
    var lower, upper := "hủy", "Hủy";
    assert lower[1] != lower[0] && lower[2] != lower[0];
    ReplaceRewritesOccurrence(text, lower, "huỷ", m);
    var once := Replace(text, lower, "huỷ");
    assert OccursAt(once, "huỷ", m);
    assert upper[0] !in "huỷ" && upper[1] != 'h' && upper[2] != 'h';
    ReplaceKeepsOccurrence(once, upper, "Huỷ", "huỷ", m);
  }

  lemma CancellationRewritesUpper(text: string, m: nat)
    requires OccursAt(text, "Hủy", m)
    ensures NormalizeCancellation(text)[m..m + 3] == "Huỷ"
  {
    var lower, upper := "hủy", "Hủy";
    assert lower[0] !in upper && lower[1] != 'H' && lower[2] != 'H';
    ReplaceKeepsOccurrence(text, lower, "huỷ", upper, m);
    var once := Replace(text, lower, "huỷ");
    assert OccursAt(once, upper, m);
    assert upper[1] != upper[0] && upper[2] != upper[0];
    ReplaceRewritesOccurrence(once, upper, "Huỷ", m);
  }

  lemma CancellationRemovesOldSpelling(text: string)
    ensures !Contains(Replace(text, "hủy", "huỷ"), "hủy")
    ensures !Contains(Replace(Replace(text, "hủy", "huỷ"), "Hủy", "Huỷ"), "hủy")
    ensures !Contains(Replace(Replace(text, "hủy", "huỷ"), "Hủy", "Huỷ"), "Hủy")
  {
    var lower, upper := "hủy", "Hủy";
    assert ReplacementIsInert(lower, "huỷ") by {
      assert "huỷ"[1] != 'h' && "huỷ"[2] != 'h';
      assert lower[1] != 'h' && lower[2] != 'h';
      NoStartInOfHead("huỷ", lower);
    }
    assert ReplacementIsInert(upper, "Huỷ") by {
      assert "Huỷ"[1] != 'H' && "Huỷ"[2] != 'H';
      assert upper[1] != 'H' && upper[2] != 'H';
      NoStartInOfHead("Huỷ", upper);
    }
    var once := Replace(text, lower, "huỷ");
    ReplaceRemovesAll(text, lower, "huỷ");
    assert lower[1] != 'H' && lower[2] != 'H';
    assert "Huỷ"[1] != 'h' && "Huỷ"[2] != 'h';
    NoStartInOfHead("Huỷ", lower);
    ReplaceKeepsAbsent(once, upper, "Huỷ", lower);
    ReplaceRemovesAll(once, upper, "Huỷ");
  }

  /** The first five rewrites of `normalize_vietnamese_transcript`: the spellings of "tv", then "ga ra". */
  function RewriteSpellings(text: string): (r: string)
    ensures NoOldSpellings(r)
    ensures NoOldSpellings(text) ==> r == text
  {
    var tv := Replace(Replace(Replace(Replace(text, "tivi", "tv"), "ti vi", "tv"), "ti-vi", "tv"), "ti. vi", "tv");
    RewritesRemoveOldSpellings(text);
    Replace(tv, "ga ra", "gara")
  }

  /** The shape shared by the four spellings of "tv": "ti" first, and no later 't' or 'g'. */
  predicate TvSpelling(p: string) {
    |p| >= 2 && p[0] == 't' && p[1] == 'i' && forall k :: 1 <= k < |p| ==> p[k] != 't' && p[k] != 'g'
  }

  lemma TvSpellings()
    ensures TvSpelling("tivi") && TvSpelling("ti vi") && TvSpelling("ti-vi") && TvSpelling("ti. vi")
  {
  }

  /** A "tv" inserted for one spelling of "tv" completes no spelling of "tv". */
  lemma TvNoStart(p: string)
    requires TvSpelling(p)
    ensures NoStartIn("tv", p)
  {
    var tv := "tv";
    assert tv[1..] == "v" && tv[1] != p[0];
    assert Mismatch(tv[1..], p[1..]);
    NoStartInOfHead(tv, p);
  }

  /** Rewriting one spelling of "tv" leaves none of that spelling. */
  lemma TvRemoves(s: string, pat: string)
    requires TvSpelling(pat)
    ensures !Contains(Replace(s, pat, "tv"), pat)
  {
    TvNoStart(pat);
    ReplaceRemovesAll(s, pat, "tv");
  }

  /** Rewriting one spelling of "tv" creates no other one. */
  lemma TvKeepsAbsent(s: string, pat: string, p: string)
    requires TvSpelling(pat) && TvSpelling(p) && !Contains(s, p)
    ensures !Contains(Replace(s, pat, "tv"), p)
  {
    TvNoStart(p);
    ReplaceKeepsAbsent(s, pat, "tv", p);
  }

  /** An inserted "gara" starts no spelling of "tv". */
  lemma GaraKeepsAbsent(s: string, p: string)
    requires TvSpelling(p) && !Contains(s, p)
    ensures !Contains(Replace(s, "ga ra", "gara"), p)
  {
    var gara := "gara";
    assert gara[1] != p[0] && gara[2] != p[0] && gara[3] != p[0];
    NoStartInOfHead(gara, p);
    ReplaceKeepsAbsent(s, "ga ra", gara, p);
  }

  /** An inserted "gara" completes no "ga ra": the two part ways at their third character. */
  lemma GaraRemoves(s: string)
    ensures !Contains(Replace(s, "ga ra", "gara"), "ga ra")
  {
    var pat, gara := "ga ra", "gara";
    assert gara[1] != 'g' && gara[2] != 'g' && gara[3] != 'g';
    assert pat[1] != 'g' && pat[2] != 'g' && pat[3] != 'g' && pat[4] != 'g';
    assert gara[2..] == "ra" && pat[2..] == " ra" && Mismatch(gara[2..], pat[2..]);
    assert gara[1..][1..] == gara[2..] && pat[1..][1..] == pat[2..];
    NoStartInOfHead(gara, pat);
    ReplaceRemovesAll(s, pat, gara);
  }

  /** Each rewrite removes its own spelling and brings back none of the earlier ones. */
  lemma RewritesRemoveOldSpellings(text: string)
    ensures NoOldSpellings(Replace(Replace(Replace(Replace(Replace(text, "tivi", "tv"), "ti vi", "tv"), "ti-vi", "tv"), "ti. vi", "tv"), "ga ra", "gara"))
  {
    var a, b, c, d := "tivi", "ti vi", "ti-vi", "ti. vi";
    TvSpellings();
    var t1 := Replace(text, a, "tv");
    TvRemoves(text, a);
    var t2 := Replace(t1, b, "tv");
    TvRemoves(t1, b);
    TvKeepsAbsent(t1, b, a);
    var t3 := Replace(t2, c, "tv");
    TvRemoves(t2, c);
    TvKeepsAbsent(t2, c, a);
    TvKeepsAbsent(t2, c, b);
    var t4 := Replace(t3, d, "tv");
    TvRemoves(t3, d);
    TvKeepsAbsent(t3, d, a);
    TvKeepsAbsent(t3, d, b);
    TvKeepsAbsent(t3, d, c);
    GaraRemoves(t4);
    GaraKeepsAbsent(t4, a);
    GaraKeepsAbsent(t4, b);
    GaraKeepsAbsent(t4, c);
    GaraKeepsAbsent(t4, d);
  }

  /** " tv " can neither hold nor border on any old spelling that is rewritten after "tv" is written. */
  lemma TvMiddle(p: string)
    requires p in {"ti vi", "ti-vi", "ti. vi", "ga ra"}
    ensures Isolated(" tv ", p) && !Contains(" tv ", p)
  {
    NotContainsByHeads(" tv ", p);
  }

  /** A spaced old spelling can neither hold nor border on a spelling that is rewritten before it. */
  lemma SpacedMiddle(m: string, p: string)
    requires (m, p) in {(" ti vi ", "tivi"), (" ti-vi ", "tivi"), (" ti-vi ", "ti vi"),
                        (" ti. vi ", "tivi"), (" ti. vi ", "ti vi"), (" ti. vi ", "ti-vi"),
                        (" ga ra ", "tivi"), (" ga ra ", "ti vi"), (" ga ra ", "ti-vi"),
                        (" ga ra ", "ti. vi")}
    ensures Isolated(m, p) && !Contains(m, p)
  {
    NotContainsByHeads(m, p);
  }

  /** A spaced old spelling holds its spelling exactly once and cannot be matched across its borders. */
  lemma SpacedSpelling(m: string, w: string, rep: string, n: string)
    requires (m, w, rep, n) in {(" tivi ", "tivi", "tv", " tv "),
                                (" ti vi ", "ti vi", "tv", " tv "),
                                (" ti-vi ", "ti-vi", "tv", " tv "),
                                (" ti. vi ", "ti. vi", "tv", " tv "),
                                (" ga ra ", "ga ra", "gara", " gara ")}
    ensures |w| >= 3 && m == " " + (w + " ") && n == " " + (rep + " ")
    ensures Isolated(m, w) && !Contains(" " + w[..|w| - 1], w)
  {
    NotContainsByHeads(" " + w[..|w| - 1], w);
  }

  /** A later rewrite leaves " tv " in the middle of the text alone. */
  lemma KeepTv(a: string, b: string, p: string, rep: string)
    requires p in {"ti vi", "ti-vi", "ti. vi", "ga ra"} && !Contains(a, p) && !Contains(b, p)
    ensures Replace(a + " tv " + b, p, rep) == a + " tv " + b
  {
    TvMiddle(p);
    ReplaceAround(a, " tv ", b, p, rep);
  }

  /** An earlier rewrite leaves a spaced old spelling in the middle of the text alone. */
  lemma KeepSpaced(a: string, m: string, b: string, p: string, rep: string)
    requires (m, p) in {(" ti vi ", "tivi"), (" ti-vi ", "tivi"), (" ti-vi ", "ti vi"),
                        (" ti. vi ", "tivi"), (" ti. vi ", "ti vi"), (" ti. vi ", "ti-vi"),
                        (" ga ra ", "tivi"), (" ga ra ", "ti vi"), (" ga ra ", "ti-vi"),
                        (" ga ra ", "ti. vi")}
    requires !Contains(a, p) && !Contains(b, p)
    ensures Replace(a + m + b, p, rep) == a + m + b
  {
    SpacedMiddle(m, p);
    ReplaceAround(a, m, b, p, rep);
  }

  /** The rewrite of `w` turns the spaced spelling `m` in the middle of the text into `n`. */
  lemma SwapSpaced(a: string, m: string, w: string, b: string, rep: string, n: string)
    requires (m, w, rep, n) in {(" tivi ", "tivi", "tv", " tv "),
                                (" ti vi ", "ti vi", "tv", " tv "),
                                (" ti-vi ", "ti-vi", "tv", " tv "),
                                (" ti. vi ", "ti. vi", "tv", " tv "),
                                (" ga ra ", "ga ra", "gara", " gara ")}
    requires !Contains(a, w) && !Contains(b, w)
    ensures Replace(a + m + b, w, rep) == a + n + b
  {
    SpacedSpelling(m, w, rep, n);
    ReplaceAround(a, m, b, w, rep);
    ReplaceAtFirst(" ", w, rep, " ");
    assert Replace(" ", w, rep) == " ";
  }

  lemma TiviBecomesTv(a: string, b: string)
    requires NoOldSpellings(a) && NoOldSpellings(b)
    ensures RewriteSpellings(a + " tivi " + b) == a + " tv " + b
  {
    SwapSpaced(a, " tivi ", "tivi", b, "tv", " tv ");
    KeepTv(a, b, "ti vi", "tv");
    KeepTv(a, b, "ti-vi", "tv");
    KeepTv(a, b, "ti. vi", "tv");
    KeepTv(a, b, "ga ra", "gara");
  }

  lemma TiSpaceViBecomesTv(a: string, b: string)
    requires NoOldSpellings(a) && NoOldSpellings(b)
    ensures RewriteSpellings(a + " ti vi " + b) == a + " tv " + b
  {
    KeepSpaced(a, " ti vi ", b, "tivi", "tv");
    SwapSpaced(a, " ti vi ", "ti vi", b, "tv", " tv ");
    KeepTv(a, b, "ti-vi", "tv");
    KeepTv(a, b, "ti. vi", "tv");
    KeepTv(a, b, "ga ra", "gara");
  }

  lemma TiDashViBecomesTv(a: string, b: string)
    requires NoOldSpellings(a) && NoOldSpellings(b)
    ensures RewriteSpellings(a + " ti-vi " + b) == a + " tv " + b
  {
    KeepSpaced(a, " ti-vi ", b, "tivi", "tv");
    KeepSpaced(a, " ti-vi ", b, "ti vi", "tv");
    SwapSpaced(a, " ti-vi ", "ti-vi", b, "tv", " tv ");
    KeepTv(a, b, "ti. vi", "tv");
    KeepTv(a, b, "ga ra", "gara");
  }

  lemma TiDotViBecomesTv(a: string, b: string)
    requires NoOldSpellings(a) && NoOldSpellings(b)
    ensures RewriteSpellings(a + " ti. vi " + b) == a + " tv " + b
  {
    KeepSpaced(a, " ti. vi ", b, "tivi", "tv");
    KeepSpaced(a, " ti. vi ", b, "ti vi", "tv");
    KeepSpaced(a, " ti. vi ", b, "ti-vi", "tv");
    SwapSpaced(a, " ti. vi ", "ti. vi", b, "tv", " tv ");
    KeepTv(a, b, "ga ra", "gara");
  }

  lemma GaRaBecomesGara(a: string, b: string)
    requires NoOldSpellings(a) && NoOldSpellings(b)
    ensures RewriteSpellings(a + " ga ra " + b) == a + " gara " + b
  {
    KeepSpaced(a, " ga ra ", b, "tivi", "tv");
    KeepSpaced(a, " ga ra ", b, "ti vi", "tv");
    KeepSpaced(a, " ga ra ", b, "ti-vi", "tv");
    KeepSpaced(a, " ga ra ", b, "ti. vi", "tv");
    SwapSpaced(a, " ga ra ", "ga ra", b, "gara", " gara ");
  }

  lemma SpacedWord(a: string, w: string, b: string)
    ensures a + " " + w + " " + b == a + (" " + w + " ") + b
  {
  }

  /** Each spelling of "tv", set off by spaces between text that holds no old spelling, becomes "tv". */
  lemma TvSpellingRewrittenInPlace(a: string, w: string, b: string)
    requires NoOldSpellings(a) && NoOldSpellings(b)
    requires w in {"tivi", "ti vi", "ti-vi", "ti. vi"}
    ensures RewriteSpellings(a + (" " + w + " ") + b) == a + " tv " + b
  {
    if w == "tivi" {
      assert " " + w + " " == " tivi ";
      TiviBecomesTv(a, b);
    } else if w == "ti vi" {
      assert " " + w + " " == " ti vi ";
      TiSpaceViBecomesTv(a, b);
    } else if w == "ti-vi" {
      assert " " + w + " " == " ti-vi ";
      TiDashViBecomesTv(a, b);
    } else {
      assert " " + w + " " == " ti. vi ";
      TiDotViBecomesTv(a, b);
    }
  }

  /**
   * Each old spelling, set off by spaces between text that holds none, is rewritten in place:
   * the four spellings of "tv" become "tv" and "ga ra" becomes "gara"; the rest is kept.
   */
  lemma SpellingsRewrittenInPlace(a: string, w: string, b: string)
    requires NoOldSpellings(a) && NoOldSpellings(b)
    requires w in {"tivi", "ti vi", "ti-vi", "ti. vi", "ga ra"}
    ensures RewriteSpellings(a + " " + w + " " + b) == a + " " + (if w == "ga ra" then "gara" else "tv") + " " + b
  {
    SpacedWord(a, w, b);
    if w == "ga ra" {
      assert " " + w + " " == " ga ra ";
      GaRaBecomesGara(a, b);
      SpacedWord(a, "gara", b);
      assert " gara " == " " + "gara" + " ";
    } else {
      TvSpellingRewrittenInPlace(a, w, b);
      SpacedWord(a, "tv", b);
      assert " tv " == " " + "tv" + " ";
    }
  }



  /** None of the spellings that `RewriteSpellings` replaces occurs in `text`. */
  predicate NoOldSpellings(text: string) {
    && !Contains(text, "tivi") && !Contains(text, "ti vi") && !Contains(text, "ti-vi")
    && !Contains(text, "ti. vi") && !Contains(text, "ga ra")
  }

  /** `normalize_vietnamese_transcript`: spelling rewrites, then numbers, then cancellation terms. */
  function NormalizeTranscript(text: string): (r: string)
    ensures !Contains(r, "hủy") && !Contains(r, "Hủy")
  {
    NormalizeCancellation(NormalizeNumbers(RewriteSpellings(text)))
  }

  /** Blank text goes through every step of the transcript normaliser unchanged. */
  lemma TranscriptOfBlank(text: string)
    requires AllSpace(text)
    ensures NormalizeTranscript(text) == text
  {
    BlankContainsNoWord(text, "tivi");
    BlankContainsNoWord(text, "ti vi");
    BlankContainsNoWord(text, "ti-vi");
    BlankContainsNoWord(text, "ti. vi");
    BlankContainsNoWord(text, "ga ra");
    BlankContainsNoWord(text, "hủy");
    BlankContainsNoWord(text, "Hủy");
  }
}
