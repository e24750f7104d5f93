/**
 * The pure helpers of the ChunkFormer backend (speech_to_phrase/transcribe_chunkformer.py):
 * the HuggingFace repository id taken from a model URL, the flattening of
 * whatever `endless_decode` returns into one line of text, and the text
 * tail of `transcribe_chunkformer`.
 */
module ChunkFormer {
  import opened Wrappers
  import opened Strings
  import opened HuggingFace
  import PostProcess

  // ---------------------------------------------------------------------------
  // The path of a URL, as urllib.parse.urlparse finds it

  predicate IsAsciiLetter(c: char) {
    'a' <= c <= 'z' || 'A' <= c <= 'Z'
  }

  /** The characters urllib accepts in a scheme. */
  predicate IsSchemeChar(c: char) {
    IsAsciiLetter(c) || '0' <= c <= '9' || c == '+' || c == '-' || c == '.'
  }

  /** The index of the first character of `s` that is in `stops`, or `|s|` when there is none. */
  function FirstOf(s: string, stops: set<char>): (i: nat)
    ensures i <= |s|
    ensures forall k :: 0 <= k < i ==> s[k] !in stops
    ensures i < |s| ==> s[i] in stops
    decreases |s|
  {
    if |s| == 0 || s[0] in stops then 0 else 1 + FirstOf(s[1..], stops)
  }

  lemma {:induction false} FirstOfIs(s: string, stops: set<char>, i: nat)
    requires i <= |s| && (forall k :: 0 <= k < i ==> s[k] !in stops) && (i < |s| ==> s[i] in stops)
    ensures FirstOf(s, stops) == i
    decreases i
  {
    if i > 0 {
      FirstOfIs(s[1..], stops, i - 1);
    }
  }

  /**
   * `url[..i]` is a scheme ended by the ':' at `i`: a letter, then scheme
   * characters. No scheme character is ':', so `i` is the first ':' of `url`.
   */
  predicate SchemeEndsAt(url: string, i: int) {
    0 < i < |url| && url[i] == ':' && IsAsciiLetter(url[0]) && forall k :: 0 <= k < i ==> IsSchemeChar(url[k])
  }

  /** What `urlsplit` keeps after the scheme: the text after the first ':' when what precedes it is a scheme. */
  function AfterScheme(url: string): (rest: string)
    ensures forall i :: SchemeEndsAt(url, i) ==> i == FirstOf(url, {':'}) && rest == url[i + 1..]
    ensures (exists i :: SchemeEndsAt(url, i)) || rest == url
  {
    var i := FirstOf(url, {':'});
    assert forall j :: SchemeEndsAt(url, j) ==> j == i by {
      forall j | SchemeEndsAt(url, j) ensures j == i {
        FirstOfIs(url, {':'}, j);
      }
    }
    if 0 < i < |url| && IsAsciiLetter(url[0]) && forall k :: 0 <= k < i ==> IsSchemeChar(url[k]) then
      assert SchemeEndsAt(url, i);
      url[i + 1..]
    else url
  }

  /** What follows the scheme is a suffix of the URL. */
  lemma AfterSchemeIsSuffix(url: string)
    ensures |AfterScheme(url)| <= |url| && AfterScheme(url) == url[|url| - |AfterScheme(url)|..]
  {
  }

  /** The `path` component of `urlparse(url)`: after the scheme and any "//" network location, up to the query or fragment. */
  function UrlPath(url: string): (path: string)
    ensures '?' !in path && '#' !in path
    ensures exists m :: OccursAt(url, path, m) && (m + |path| == |url| || url[m + |path|] in {'?', '#'})
  {
    var rest := AfterScheme(url);
    AfterSchemeIsSuffix(url);
    var start :=
      if |rest| >= 2 && rest[..2] == "//" then |url| - |rest| + 2 + FirstOf(rest[2..], {'/', '?', '#'})
      else |url| - |rest|;
    CutAt(url, start, {'?', '#'});
    url[start..][..FirstOf(url[start..], {'?', '#'})]
  }

  /** Cutting the text after `start` at the first stop leaves an occurrence that a stop or the end follows. */
  lemma CutAt(url: string, start: nat, stops: set<char>)
    requires start <= |url|
    ensures var path := url[start..][..FirstOf(url[start..], stops)];
      && (forall c :: c in stops ==> c !in path)
      && OccursAt(url, path, start)
      && (start + |path| == |url| || url[start + |path|] in stops)
  {
    var t := url[start..];
    var path := t[..FirstOf(t, stops)];
    assert forall k :: 0 <= k < |path| ==> path[k] == t[k] == url[start + k];
    assert url[start..start + |path|] == path;
  }

  /** The pieces that are not empty, in order (`[part for part in parts if part]`). */
  function NonEmpty(parts: seq<string>): (r: seq<string>)
    ensures |r| <= |parts|
    ensures forall k :: 0 <= k < |r| ==> |r[k]| > 0 && r[k] in parts
    ensures forall k :: 0 <= k < |parts| && |parts[k]| > 0 ==> parts[k] in r
    ensures |parts| == 1 ==> r == if |parts[0]| > 0 then parts else []
    decreases |parts|
  {
    if |parts| == 0 then []
    else
      assert forall k :: 1 <= k < |parts| ==> parts[k] == parts[1..][k - 1];
      if |parts[0]| > 0 then [parts[0]] + NonEmpty(parts[1..])
      else NonEmpty(parts[1..])
  }

  lemma {:induction false} NonEmptyWithout(parts: seq<string>, c: char)
    requires forall k :: 0 <= k < |parts| ==> c !in parts[k]
    ensures forall k :: 0 <= k < |NonEmpty(parts)| ==> c !in NonEmpty(parts)[k]
    decreases |parts|
  {
    if |parts| > 0 {
      NonEmptyWithout(parts[1..], c);
    }
  }

  /** Dropping the empty strings from stripped strings leaves stripped, non-empty pieces. */
  lemma {:induction false} NonEmptyStripped(parts: seq<string>)
    requires forall k :: 0 <= k < |parts| ==> IsStripped(parts[k])
    ensures StrippedPieces(NonEmpty(parts))
    decreases |parts|
  {
    if |parts| > 0 {
      assert forall k :: 0 <= k < |parts[1..]| ==> parts[1..][k] == parts[k + 1];
      NonEmptyStripped(parts[1..]);
      if |parts[0]| > 0 {
        assert IsStripped(parts[0]);
        StrippedPiecesCons(parts[0], NonEmpty(parts[1..]));
      }
    }
  }

  lemma {:induction false} NonEmptyAppend(ps: seq<string>, qs: seq<string>)
    ensures NonEmpty(ps + qs) == NonEmpty(ps) + NonEmpty(qs)
    decreases |ps|
  {
    if |ps| > 0 {
      assert (ps + qs)[1..] == ps[1..] + qs;
      NonEmptyAppend(ps[1..], qs);
    } else {
      assert ps + qs == qs;
    }
  }

  /** `_extract_repo_id`: the first two non-empty path segments of a HuggingFace URL, joined by "/". */
  function ExtractRepoId(url: Option<string>): (r: Option<string>)
    ensures r.Some? ==> url.Some? && Contains(url.value, Hub)
    ensures r.Some? ==> |NonEmpty(SplitOn(UrlPath(url.value), '/'))| >= 2 && SplitOn(r.value, '/') == NonEmpty(SplitOn(UrlPath(url.value), '/'))[..2]
    ensures url.Some? && Contains(url.value, Hub) && |NonEmpty(SplitOn(UrlPath(url.value), '/'))| >= 2 ==> r.Some?
  {
    if url.Some? && url.value != "" && Contains(url.value, Hub) then
      var parts := NonEmpty(SplitOn(UrlPath(url.value), '/'));
      if |parts| >= 2 then
        NonEmptyWithout(SplitOn(UrlPath(url.value), '/'), '/');
        TwoSegments(parts);
        Some(parts[0] + "/" + parts[1])
      else None
    else None
  }

  lemma TwoSegments(parts: seq<string>)
    requires |parts| >= 2 && '/' !in parts[0] && '/' !in parts[1]
    ensures SplitOn(parts[0] + "/" + parts[1], '/') == parts[..2]
  {
    SplitOnConcat(parts[0], '/', parts[1]);
    SplitOnPiece(parts[0], '/');
    SplitOnPiece(parts[1], '/');
  }

  /** "https" is a scheme: what follows its ':' is the rest of the URL. */
  lemma AfterHttps(url: string)
    requires |url| >= 6 && url[..6] == "https:"
    ensures AfterScheme(url) == url[6..]
  {
    assert url[5] == ':' && forall k :: 0 <= k < 5 ==> url[k] == "https:"[k];
    FirstOfIs(url, {':'}, 5);
  }

  /** A host without '/', '?' or '#', followed by a path, ends at the path. */
  lemma HostThenPath(host: string, path: string)
    requires '/' !in host && '?' !in host && '#' !in host
    requires |path| > 0 && path[0] == '/'
    ensures FirstOf(host + path, {'/', '?', '#'}) == |host|
    ensures (host + path)[|host|..] == path
  {
    var t := host + path;
    assert forall k :: 0 <= k < |host| ==> t[k] == host[k];
    FirstOfIs(t, {'/', '?', '#'}, |host|);
  }

  lemma HttpsPrefix(x: string)
    ensures ("https://" + x)[..6] == "https:" && ("https://" + x)[6..] == "//" + x
  {
  }

  lemma NetlocPrefix(x: string)
    ensures ("//" + x)[..2] == "//" && ("//" + x)[2..] == x
  {
  }

  /**
   * The path of "https://" + host + path + query is `path`, when the host stops at the first "/"
   * and the query (or fragment), if any, starts with "?" or "#".
   */
  lemma PathOfHttpsUrl(host: string, path: string, query: string)
    requires '/' !in host && '?' !in host && '#' !in host
    requires |path| > 0 && path[0] == '/' && '?' !in path && '#' !in path
    requires query == "" || query[0] == '?' || query[0] == '#'
    ensures UrlPath("https://" + (host + (path + query))) == path
  {
    var x := host + (path + query);
    HttpsPrefix(x);
    AfterHttps("https://" + x);
    NetlocPrefix(x);
    HostThenPath(host, path + query);
    var t := path + query;
    assert forall k :: 0 <= k < |path| ==> t[k] == path[k];
    FirstOfIs(t, {'?', '#'}, |path|);
    assert t[..|path|] == path;
  }

  /** The path "/owner/name" followed by `tail`. */
  function RepoPath(owner: string, name: string, tail: string): string {
    "/" + owner + "/" + name + tail
  }

  /** The model URL "https://huggingface.co/owner/name" followed by `tail`. */
  function HubUrl(owner: string, name: string, tail: string): string {
    "https://" + (Hub + RepoPath(owner, name, tail))
  }

  /** The path of a hub URL is "/owner/name" and the path tail; a query or fragment after it is cut off. */
  lemma HubUrlPath(owner: string, name: string, tail: string, query: string)
    requires '/' !in owner && '?' !in owner && '#' !in owner
    requires '/' !in name && '?' !in name && '#' !in name
    requires '?' !in tail && '#' !in tail
    requires query == "" || query[0] == '?' || query[0] == '#'
    ensures Contains(HubUrl(owner, name, tail + query), Hub)
    ensures UrlPath(HubUrl(owner, name, tail + query)) == RepoPath(owner, name, tail)
  {
    var path := RepoPath(owner, name, tail);
    assert RepoPath(owner, name, tail + query) == path + query;
    PathOfHttpsUrl(Hub, path, query);
    OccursInMiddle("https://", Hub, path + query);
  }

  /** Splitting at a leading piece without "/" peels that piece off. */
  lemma SplitAfterPiece(x: string, y: string)
    requires '/' !in x
    ensures SplitOn(x + "/" + y, '/') == [x] + SplitOn(y, '/')
  {
    SplitOnAfterPiece(x, '/', y);
  }

  lemma HeadAndTail(x: string, y: string)
    requires |y| > 0
    ensures x + y == x + [y[0]] + y[1..]
  {
    assert y == [y[0]] + y[1..];
  }

  /** A path segment followed by nothing or by a "/"-led tail. */
  lemma SplitSegmentTail(name: string, tail: string)
    requires '/' !in name && (tail == "" || tail[0] == '/')
    ensures |SplitOn(name + tail, '/')| >= 1 && SplitOn(name + tail, '/')[0] == name
  {
    if tail == "" {
      assert name + tail == name;
      SplitOnPiece(name, '/');
    } else {
      HeadAndTail(name, tail);
      SplitOnAfterPiece(name, '/', tail[1..]);
    }
  }

  /** A path "/owner/…" splits into "", the owner, and the segments after it. */
  lemma LeadingSegments(owner: string, name: string, tail: string)
    requires '/' !in owner
    ensures SplitOn("/" + owner + "/" + name + tail, '/') == ["", owner] + SplitOn(name + tail, '/')
  {
    var rest := name + tail;
    var b := owner + "/" + rest;
    assert "/" + owner + "/" + name + tail == "" + "/" + b;
    SplitAfterPiece("", b);
    SplitAfterPiece(owner, rest);
  }

  /** Dropping the empty first segment leaves the owner and the next segment in front. */
  lemma {:induction false} FirstTwoNonEmpty(owner: string, segs: seq<string>)
    requires |owner| > 0 && |segs| >= 1 && |segs[0]| > 0
    ensures |NonEmpty(["", owner] + segs)| >= 2
    ensures NonEmpty(["", owner] + segs)[..2] == [owner, segs[0]]
  {
    var all := ["", owner] + segs;
    assert all[1..] == [owner] + segs;
    assert ([owner] + segs)[1..] == segs;
    assert NonEmpty(segs) == [segs[0]] + NonEmpty(segs[1..]);
  }

  lemma RepoPathSegments(owner: string, name: string, tail: string)
    requires |owner| > 0 && |name| > 0 && '/' !in owner && '/' !in name
    requires tail == "" || tail[0] == '/'
    ensures |NonEmpty(SplitOn(RepoPath(owner, name, tail), '/'))| >= 2
    ensures NonEmpty(SplitOn(RepoPath(owner, name, tail), '/'))[..2] == [owner, name]
  {
    LeadingSegments(owner, name, tail);
    SplitSegmentTail(name, tail);
    FirstTwoNonEmpty(owner, SplitOn(name + tail, '/'));
  }

  /** The repository id of "https://huggingface.co/owner/name…" is "owner/name", whatever path, query or fragment follows. */
  lemma RepoIdOfHubUrl(owner: string, name: string, tail: string, query: string)
    requires |owner| > 0 && |name| > 0
    requires '/' !in owner && '?' !in owner && '#' !in owner
    requires '/' !in name && '?' !in name && '#' !in name
    requires '?' !in tail && '#' !in tail && (tail == "" || tail[0] == '/')
    requires query == "" || query[0] == '?' || query[0] == '#'
    ensures ExtractRepoId(Some(HubUrl(owner, name, tail + query))) == Some(owner + "/" + name)
  {
    var url := HubUrl(owner, name, tail + query);
    HubUrlPath(owner, name, tail, query);
    RepoPathSegments(owner, name, tail);
    var r := ExtractRepoId(Some(url));
    assert SplitOn(r.value, '/') == [owner, name];
    assert r.value == Join("/", [owner, name]);
  }

  // ---------------------------------------------------------------------------
  // _decode_to_text

  /** A value of a decoded dict: only strings are used. */
  datatype Field = StrField(text: string) | OtherField

  /** An element of a decoded sequence: a string, a dict (by the `str` of each entry), or another value by its `str`. */
  datatype Item = StrItem(text: string) | DictItem(entries: map<string, string>) | OtherItem(repr: string)

  /** The shapes of `decoded` that `_decode_to_text` distinguishes. */
  datatype Decoded =
    | Nothing
    | Text(text: string)
    | Mapping(values: seq<Field>)
    | Sequence(items: seq<Item>)
    | Opaque(repr: string)

  /** The piece one dict value yields: a string stripped, anything else nothing. */
  function FieldPiece(f: Field): (p: string)
    ensures IsStripped(p)
  {
    match f
    case StrField(s) => Strip(s)
    case OtherField => ""
  }

  /** The piece of every dict value, in order, before empty pieces are dropped. */
  function FieldPieceList(vs: seq<Field>): (ps: seq<string>)
    ensures |ps| == |vs| && forall k :: 0 <= k < |vs| ==> ps[k] == FieldPiece(vs[k])
  {
    seq(|vs|, k requires 0 <= k < |vs| => FieldPiece(vs[k]))
  }

  /** The pieces of the dict branch: each non-blank string value, stripped. */
  function FieldPieces(vs: seq<Field>): (ps: seq<string>)
    ensures |ps| <= |vs|
    ensures StrippedPieces(ps)
    ensures forall k :: 0 <= k < |vs| && FieldPiece(vs[k]) != "" ==> FieldPiece(vs[k]) in ps
  {
    NonEmptyStripped(FieldPieceList(vs));
    NonEmpty(FieldPieceList(vs))
  }

  /** One value yields its piece when that is non-empty, and nothing otherwise. */
  lemma FieldPiecesOne(f: Field)
    ensures FieldPieces([f]) == if FieldPiece(f) != "" then [FieldPiece(f)] else []
  {
    assert FieldPieceList([f]) == [FieldPiece(f)];
  }

  /** The pieces of concatenated value lists are concatenated: the pieces keep the dict's order. */
  lemma FieldPiecesAppend(a: seq<Field>, b: seq<Field>)
    ensures FieldPieces(a + b) == FieldPieces(a) + FieldPieces(b)
  {
    assert FieldPieceList(a + b) == FieldPieceList(a) + FieldPieceList(b);
    NonEmptyAppend(FieldPieceList(a), FieldPieceList(b));
  }

  /** The first value's piece, when non-empty, comes before the rest's pieces. */
  lemma FieldPiecesCons(vs: seq<Field>)
    requires |vs| > 0
    ensures FieldPieces(vs) == if FieldPiece(vs[0]) != "" then [FieldPiece(vs[0])] + FieldPieces(vs[1..]) else FieldPieces(vs[1..])
  {
    assert vs == [vs[0]] + vs[1..];
    FieldPiecesAppend([vs[0]], vs[1..]);
    FieldPiecesOne(vs[0]);
  }

  /** The piece one element of a decoded sequence yields, before empty pieces are dropped. */
  function ItemPiece(item: Item): (p: string)
    ensures IsStripped(p)
  {
    match item
    case StrItem(s) => Strip(s)
    case DictItem(entries) => Strip(if "decode" in entries then entries["decode"] else "")
    case OtherItem(repr) => Strip(repr)
  }

  /** The piece of every item, in order, before empty pieces are dropped. */
  function ItemPieceList(items: seq<Item>): (ps: seq<string>)
    ensures |ps| == |items| && forall k :: 0 <= k < |items| ==> ps[k] == ItemPiece(items[k])
  {
    seq(|items|, k requires 0 <= k < |items| => ItemPiece(items[k]))
  }

  /** The `segments` of the iterable branch: the non-empty item pieces, in order. */
  function ItemPieces(items: seq<Item>): (ps: seq<string>)
    ensures |ps| <= |items|
    ensures StrippedPieces(ps)
    ensures forall k :: 0 <= k < |items| && ItemPiece(items[k]) != "" ==> ItemPiece(items[k]) in ps
  {
    NonEmptyStripped(ItemPieceList(items));
    NonEmpty(ItemPieceList(items))
  }

  /** One item yields its piece when that is non-empty, and nothing otherwise. */
  lemma ItemPiecesOne(item: Item)
    ensures ItemPieces([item]) == if ItemPiece(item) != "" then [ItemPiece(item)] else []
  {
    assert ItemPieceList([item]) == [ItemPiece(item)];
  }

  /** The pieces of concatenated item lists are concatenated: the pieces keep the items' order. */
  lemma ItemPiecesAppend(a: seq<Item>, b: seq<Item>)
    ensures ItemPieces(a + b) == ItemPieces(a) + ItemPieces(b)
  {
    assert ItemPieceList(a + b) == ItemPieceList(a) + ItemPieceList(b);
    NonEmptyAppend(ItemPieceList(a), ItemPieceList(b));
  }

  /** `_decode_to_text`. */
  function DecodeToText(d: Decoded): (r: string)
    ensures IsStripped(r)
    ensures d.Nothing? ==> r == ""
    ensures d.Text? ==> r == Strip(d.text)
    ensures d.Opaque? ==> r == Strip(d.repr)
  {
    match d
    case Nothing => ""
    case Text(s) => Strip(s)
    case Mapping(vs) => Strip(Join(" ", FieldPieces(vs)))
    case Sequence(items) => Strip(Join(" ", ItemPieces(items)))
    case Opaque(repr) => Strip(repr)
  }

  /** The final `.strip()` of the dict and iterable branches changes nothing: the pieces are already stripped and non-empty. */
  lemma JoinedPiecesNeedNoStrip(ps: seq<string>)
    requires StrippedPieces(ps)
    ensures Strip(Join(" ", ps)) == Join(" ", ps)
  {
    JoinIsStripped(ps);
    StripOfStripped(Join(" ", ps));
  }

  /** The words of the string values of a dict, in order. */
  function FieldWords(vs: seq<Field>): seq<string> {
    if |vs| == 0 then []
    else (match vs[0] case StrField(s) => Words(s) case OtherField => []) + FieldWords(vs[1..])
  }

  lemma {:induction false} FieldPiecesWords(vs: seq<Field>)
    ensures FlatWords(FieldPieces(vs)) == FieldWords(vs)
    decreases |vs|
  {
    if |vs| > 0 {
      FieldPiecesWords(vs[1..]);
      FieldPiecesCons(vs);
      if vs[0].StrField? {
        var s := vs[0].text;
        WordsOfStrip(s);
        WordsOfBlank(Strip(s));
      }
    }
  }

  /** A dict result holds exactly the words of the dict's string values, in order, separated by single spaces. */
  lemma DictTextWords(vs: seq<Field>)
    ensures DecodeToText(Mapping(vs)) == Join(" ", FieldPieces(vs))
    ensures Words(DecodeToText(Mapping(vs))) == FieldWords(vs)
  {
    JoinedPiecesNeedNoStrip(FieldPieces(vs));
    WordsOfJoin(FieldPieces(vs));
    FieldPiecesWords(vs);
  }

  /** A sequence result is its non-empty pieces joined by single spaces, and splitting it on spaces never cuts inside a piece boundary. */
  lemma SequenceText(items: seq<Item>)
    ensures DecodeToText(Sequence(items)) == Join(" ", ItemPieces(items))
    ensures Words(DecodeToText(Sequence(items))) == FlatWords(ItemPieces(items))
  {
    JoinedPiecesNeedNoStrip(ItemPieces(items));
    WordsOfJoin(ItemPieces(items));
  }

  /** Items with only blank pieces give "". */
  lemma {:induction false} BlankItemsGiveNothing(items: seq<Item>)
    requires forall k :: 0 <= k < |items| ==> ItemPiece(items[k]) == ""
    ensures DecodeToText(Sequence(items)) == ""
    ensures ItemPieces(items) == []
    decreases |items|
  {
    if |items| > 0 {
      BlankItemsGiveNothing(items[1..]);
    }
  }

  // ---------------------------------------------------------------------------
  // The text tail of transcribe_chunkformer

  /** From the decode result to the final transcript; `casing` stands for `WordCasing.get_function(model.casing)`. */
  function TranscribeTail(decoded: Decoded, casing: string -> string, languageFamily: string,
                          decodeMeta: string -> string): (r: string)
    ensures DecodeToText(decoded) == "" ==> r == ""
  {
    var text := DecodeToText(decoded);
    if text == "" then ""
    else
      var cased := Strip(casing(text));
      if cased == "" then "" else PostProcess.FinalizeTranscript(languageFamily, cased, decodeMeta)
  }

  /** The tail's own emptiness checks and strip are redundant: the result is the finalised cased text. */
  lemma TranscribeTailIsFinalize(decoded: Decoded, casing: string -> string, languageFamily: string,
                                 decodeMeta: string -> string)
    ensures TranscribeTail(decoded, casing, languageFamily, decodeMeta)
         == if DecodeToText(decoded) == "" then ""
            else PostProcess.FinalizeTranscript(languageFamily, casing(DecodeToText(decoded)), decodeMeta)
  {
    PostProcess.FinalizeAfterCasing(languageFamily, casing(DecodeToText(decoded)), decodeMeta);
  }
}
