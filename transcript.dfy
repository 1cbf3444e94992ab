/**
 * Model of utils/transcript.py: the video-identifier extractor
 * `extract_video_id` and the caption joining in `get_youtube_transcript`.
 *
 * `extract_video_id` runs `re.search` with two patterns, in this order:
 *   QueryOrPath  `(?:v=|\/)([\w-]{11})(?:&|\?|$)`
 *   ShortLink    `youtu\.be\/([\w-]{11})`
 * and returns group 1 of the first pattern that matches anywhere.
 * `re.search` tries the start positions 0, 1, ..., |s| in order and reports
 * the first one at which the pattern matches; `Leftmost` is that search.
 */
module Transcript {
  import opened Text

  datatype Pattern = QueryOrPath | ShortLink

  /** The pattern list of `extract_video_id`, in priority order. */
  const Patterns: seq<Pattern> := [QueryOrPath, ShortLink]

  const IdLength: nat := 11

  /** `[\w-]{11}` matches at position `j` of `s`. */
  predicate IdAt(w: WordClass, s: string, j: nat)
    ensures IdAt(w, s, j) ==> j + IdLength <= |s| && IsIdShape(w, s[j..j + IdLength])
  {
    j + IdLength <= |s| && forall k :: j <= k < j + IdLength ==> IdChar(w, s[k])
  }

  /**
   * `(?:&|\?|$)` matches at position `e`: the next character is `&` or `?`,
   * or `e` is the end of `s`, or `e` is just before a final line feed
   * (`$` without MULTILINE matches there too).
   */
  predicate EndAt(s: string, e: nat)
    ensures EndAt(s, e) ==> e <= |s|
    ensures EndAt(s, e) && e < |s| ==> s[e] == '&' || s[e] == '?' || (s[e] == '\n' && e + 1 == |s|)
    ensures e == |s| ==> EndAt(s, e)
  {
    e == |s| || (e < |s| && (s[e] == '&' || s[e] == '?')) || (e + 1 == |s| && s[e] == '\n')
  }

  /**
   * The parts of a match of `p` at `i` that do not involve `\w`: the literal
   * text before the group and, for QueryOrPath, the terminator after it.
   */
  predicate LiteralsAt(p: Pattern, s: string, i: nat)
    ensures LiteralsAt(p, s, i) ==> i < |s| && GroupStart(p, s, i) + IdLength <= |s|
    ensures p == QueryOrPath && LiteralsAt(p, s, i) ==>
      (s[i] == 'v' && s[i + 1] == '=') || s[i] == '/'
  {
    match p
    case QueryOrPath =>
      (i + 2 <= |s| && s[i] == 'v' && s[i + 1] == '=' && i + 13 <= |s| && EndAt(s, i + 13))
      || (i < |s| && s[i] == '/' && i + 12 <= |s| && EndAt(s, i + 12))
    case ShortLink =>
      i + 9 + IdLength <= |s| && s[i..i + 9] == "youtu.be/"
  }

  /**
   * Where group 1 of a match at `i` begins. For QueryOrPath, the `v=`
   * alternative is tried first; the `/` alternative can only succeed where
   * `s[i]` is not `v`, so the character at `i` tells which one matched.
   */
  function GroupStart(p: Pattern, s: string, i: nat): (r: nat)
    requires i < |s|
    ensures p == QueryOrPath ==> r == i + 1 || r == i + 2
    ensures p == ShortLink ==> r == i + |"youtu.be/"|
  {
    match p
    case QueryOrPath => if s[i] == 'v' then i + 2 else i + 1
    case ShortLink => i + 9
  }

  /** Pattern `p` matches `s` starting at position `i`. */
  predicate MatchAt(w: WordClass, p: Pattern, s: string, i: nat)
    ensures MatchAt(w, p, s, i) ==>
      i < |s| && GroupStart(p, s, i) + IdLength <= |s|
      && IsIdShape(w, s[GroupStart(p, s, i)..GroupStart(p, s, i) + IdLength])
  {
    LiteralsAt(p, s, i) && IdAt(w, s, GroupStart(p, s, i))
  }

  /** Group 1 of the match of `p` at `i`. */
  function Group(w: WordClass, p: Pattern, s: string, i: nat): (g: string)
    requires MatchAt(w, p, s, i)
    ensures IsIdShape(w, g)
  {
    s[GroupStart(p, s, i)..GroupStart(p, s, i) + IdLength]
  }

  /** `re.search` from position `from`: the first start position at which `p` matches. */
  function Leftmost(w: WordClass, p: Pattern, s: string, from: nat): (r: Option<nat>)
    decreases |s| + 1 - from
    ensures r.Some? ==> from <= r.value <= |s| && MatchAt(w, p, s, r.value)
    ensures r.Some? ==> forall k :: from <= k < r.value ==> !MatchAt(w, p, s, k)
    ensures r.None? <==> forall k :: from <= k <= |s| ==> !MatchAt(w, p, s, k)
  {
    if from > |s| then None
    else if MatchAt(w, p, s, from) then Some(from)
    else Leftmost(w, p, s, from + 1)
  }

  /** Group 1 of the leftmost match of `p` in `s`, if `p` matches anywhere. */
  function SearchGroup(w: WordClass, p: Pattern, s: string): (r: Option<string>)
    ensures r.Some? <==> exists i :: 0 <= i <= |s| && MatchAt(w, p, s, i)
    ensures r.Some? ==> IsIdShape(w, r.value)
  {
    match Leftmost(w, p, s, 0)
    case Some(i) => Some(Group(w, p, s, i))
    case None => None
  }

  /** Group 1 of the leftmost match of `p` occurs in `s`. */
  lemma SearchGroupOccurs(w: WordClass, p: Pattern, s: string)
    requires SearchGroup(w, p, s).Some?
    ensures exists j :: OccursAt(s, SearchGroup(w, p, s).value, j)
  {
    var i := Leftmost(w, p, s, 0).value;
    assert OccursAt(s, SearchGroup(w, p, s).value, GroupStart(p, s, i));
  }

  /** Group 1 of the first pattern of `ps` that matches `url` anywhere, or None. */
  function FirstGroup(w: WordClass, ps: seq<Pattern>, url: string): (r: Option<string>)
    decreases |ps|
    ensures r.Some? ==> IsIdShape(w, r.value) && exists j :: OccursAt(url, r.value, j)
    ensures r.None? <==> forall k :: 0 <= k < |ps| ==> Leftmost(w, ps[k], url, 0).None?
  {
    if |ps| == 0 then None
    else match SearchGroup(w, ps[0], url)
      case Some(id) => SearchGroupOccurs(w, ps[0], url); Some(id)
      case None => FirstGroup(w, ps[1..], url)
  }

  /** What `extract_video_id` returns. */
  function VideoId(w: WordClass, url: string): (r: Option<string>)
    ensures r.Some? ==> IsIdShape(w, r.value)
    ensures r.Some? ==> exists j :: OccursAt(url, r.value, j)
    ensures r.None? <==> forall i :: 0 <= i <= |url| ==> !MatchAt(w, QueryOrPath, url, i) && !MatchAt(w, ShortLink, url, i)
  {
    var r := FirstGroup(w, Patterns, url);
    assert Patterns[0] == QueryOrPath && Patterns[1] == ShortLink;
    r
  }

  /** `extract_video_id`: a loop over the pattern list that returns at the first pattern that matches. */
  method ExtractVideoId(w: WordClass, url: string) returns (r: Option<string>)
    ensures r == VideoId(w, url)
  {
    var patterns := Patterns;
    for n := 0 to |patterns|
      invariant FirstGroup(w, patterns[n..], url) == VideoId(w, url)
    {
      assert patterns[n..][1..] == patterns[n + 1..];
      var m := Leftmost(w, patterns[n], url, 0);
      if m.Some? {
        return Some(Group(w, patterns[n], url, m.value));
      }
    }
    return None;
  }

  // ---------------------------------------------------------------------
  // Properties of the extractor
  // ---------------------------------------------------------------------

  /**
   * Priority: once the first pattern matches somewhere, the result is the
   * group of its leftmost match, whatever the `youtu.be/` pattern would say.
   */
  lemma FirstPatternWins(w: WordClass, url: string, i: nat)
    requires i <= |url| && MatchAt(w, QueryOrPath, url, i)
    ensures Leftmost(w, QueryOrPath, url, 0).Some?
    ensures Leftmost(w, QueryOrPath, url, 0).value <= i
    ensures VideoId(w, url) == Some(Group(w, QueryOrPath, url, Leftmost(w, QueryOrPath, url, 0).value))
  {
  }

  /** The `youtu.be/` pattern decides only when the first pattern matches nowhere. */
  lemma ShortLinkFallback(w: WordClass, url: string)
    requires forall i :: 0 <= i <= |url| ==> !MatchAt(w, QueryOrPath, url, i)
    ensures VideoId(w, url) == SearchGroup(w, ShortLink, url)
  {
  }

  /**
   * A result the first pattern produced sits right after `v=` or `/` and is
   * followed by `&`, `?`, the end of the url, or a final line feed.
   */
  lemma QueryOrPathContext(w: WordClass, url: string)
    requires Leftmost(w, QueryOrPath, url, 0).Some?
    ensures var g := GroupStart(QueryOrPath, url, Leftmost(w, QueryOrPath, url, 0).value);
      && VideoId(w, url) == Some(url[g..g + IdLength])
      && ((2 <= g && url[g - 2..g] == "v=") || (1 <= g && url[g - 1] == '/'))
      && EndAt(url, g + IdLength)
  {
    var i := Leftmost(w, QueryOrPath, url, 0).value;
    if url[i] == 'v' {
      assert url[i..i + 2] == "v=";
    }
  }

  // ---------------------------------------------------------------------
  // Concrete urls
  // ---------------------------------------------------------------------

  /** No position in [i, j) of `s` holds `v` or `/`, so no first-pattern match starts there. */
  predicate NoAnchor(s: string, i: nat, j: nat) {
    j <= |s| && forall k :: i <= k < j ==> s[k] != 'v' && s[k] != '/'
  }

  lemma NoAnchorNoMatch(w: WordClass, s: string, i: nat, j: nat)
    requires NoAnchor(s, i, j)
    ensures forall k :: i <= k < j ==> !MatchAt(w, QueryOrPath, s, k)
  {
  }

  lemma NoAnchorExtend(a: string, b: string, i: nat, j: nat)
    requires NoAnchor(a, i, j)
    ensures NoAnchor(a + b, i, j)
  {
    assert forall k :: i <= k < j ==> (a + b)[k] == a[k];
  }

  /** Positions that cannot start a match do not change where the search ends up. */
  lemma {:induction false} SkipNoMatch(w: WordClass, p: Pattern, s: string, i: nat, j: nat)
    requires i <= j
    requires forall k :: i <= k < j ==> !MatchAt(w, p, s, k)
    ensures Leftmost(w, p, s, i) == Leftmost(w, p, s, j)
    decreases j - i
  {
    if i < j {
      assert !MatchAt(w, p, s, i);
      assert Leftmost(w, p, s, i) == Leftmost(w, p, s, i + 1);
      SkipNoMatch(w, p, s, i + 1, j);
    }
  }

  /** When the first pattern's leftmost match is at `i`, the result is its group. */
  lemma FirstMatchDecides(w: WordClass, url: string, i: nat)
    requires i <= |url| && MatchAt(w, QueryOrPath, url, i)
    requires forall k :: 0 <= k < i ==> !MatchAt(w, QueryOrPath, url, k)
    ensures VideoId(w, url) == Some(Group(w, QueryOrPath, url, i))
  {
    SkipNoMatch(w, QueryOrPath, url, 0, i);
  }

  const WatchPrefix: string := "https://www.youtube.com/watch?v="

  lemma WatchPrefixAnchors()
    ensures NoAnchor(WatchPrefix, 0, 6) && NoAnchor(WatchPrefix, 8, 23) && NoAnchor(WatchPrefix, 24, 30)
  {
  }

  lemma WatchPrefixChars()
    ensures |WatchPrefix| == 32
    ensures WatchPrefix[6] == '/' && WatchPrefix[7] == '/' && WatchPrefix[19] == '.'
    ensures WatchPrefix[23] == '/' && WatchPrefix[29] == '?'
    ensures WatchPrefix[30] == 'v' && WatchPrefix[31] == '='
  {
  }

  /** In a watch url, no first-pattern match starts before the `v=`. */
  lemma WatchNoEarlyMatch(w: WordClass, id: string)
    requires AsciiAgrees(w)
    ensures forall k :: 0 <= k < 30 ==> !MatchAt(w, QueryOrPath, WatchPrefix + id, k)
  {
    var url := WatchPrefix + id;
    WatchPrefixAnchors();
    WatchPrefixChars();
    NoAnchorExtend(WatchPrefix, id, 0, 6);
    NoAnchorExtend(WatchPrefix, id, 8, 23);
    NoAnchorExtend(WatchPrefix, id, 24, 30);
    NoAnchorNoMatch(w, url, 0, 6);
    NoAnchorNoMatch(w, url, 8, 23);
    NoAnchorNoMatch(w, url, 24, 30);
    // positions 6, 7 and 23 hold `/`, but no match starts there:
    // another `/`, a `.` where a terminator is needed, and the `?` of the query
    assert url[7] == '/' && !IdChar(w, url[7]);
    assert !MatchAt(w, QueryOrPath, url, 6);
    assert url[19] == '.' && !EndAt(url, 19);
    assert !MatchAt(w, QueryOrPath, url, 7);
    assert url[29] == '?' && !IdChar(w, url[29]);
    assert !MatchAt(w, QueryOrPath, url, 23);
  }

  /** Every watch url `https://www.youtube.com/watch?v=<id>` yields `<id>`. */
  lemma WatchUrlYieldsId(w: WordClass, id: string)
    requires AsciiAgrees(w) && IsIdShape(w, id)
    ensures VideoId(w, WatchPrefix + id) == Some(id)
  {
    var url := WatchPrefix + id;
    WatchPrefixChars();
    WatchNoEarlyMatch(w, id);
    assert url[30] == 'v' && url[31] == '=';
    assert url[32..43] == id;
    assert MatchAt(w, QueryOrPath, url, 30);
    FirstMatchDecides(w, url, 30);
  }

  lemma WatchExampleUrl()
    ensures WatchPrefix + "dQw4w9WgXcQ" == "https://www.youtube.com/watch?v=dQw4w9WgXcQ"
  {
    assert |WatchPrefix + "dQw4w9WgXcQ"| == 43;
  }

  lemma ExampleIdShape(w: WordClass)
    requires AsciiAgrees(w)
    ensures IsIdShape(w, "dQw4w9WgXcQ")
  {
    var id := "dQw4w9WgXcQ";
    assert forall k :: 0 <= k < |id| ==> id[k] < '\U{80}' && AsciiWord(id[k]);
  }

  /** A standard watch url yields its identifier: the watch url of `dQw4w9WgXcQ` yields `dQw4w9WgXcQ`. */
  lemma WatchExample(w: WordClass)
    requires AsciiAgrees(w)
    ensures VideoId(w, "https://www.youtube.com/watch?v=dQw4w9WgXcQ") == Some("dQw4w9WgXcQ")
  {
    ExampleIdShape(w);
    WatchUrlYieldsId(w, "dQw4w9WgXcQ");
    WatchExampleUrl();
  }

  lemma ShortPrefixChars()
    ensures |ShortPrefix| == 17
    ensures NoAnchor(ShortPrefix, 0, 6) && NoAnchor(ShortPrefix, 8, 16)
    ensures ShortPrefix[6] == '/' && ShortPrefix[7] == '/' && ShortPrefix[16] == '/'
  {
  }

  /**
   * Every short url `https://youtu.be/<id>`, with or without a final line
   * feed, yields `<id>` (through the first pattern: the `/` before the id
   * is followed by eleven `[\w-]` characters and the end of the url).
   */
  lemma ShortUrlYieldsId(w: WordClass, id: string, tail: string)
    requires AsciiAgrees(w) && IsIdShape(w, id)
    requires tail == "" || tail == "\n"
    ensures VideoId(w, ShortPrefix + id + tail) == Some(id)
  {
    var url := ShortPrefix + id + tail;
    ShortPrefixChars();
    assert url == ShortPrefix + (id + tail);
    NoAnchorExtend(ShortPrefix, id + tail, 0, 6);
    NoAnchorExtend(ShortPrefix, id + tail, 8, 16);
    NoAnchorNoMatch(w, url, 0, 6);
    NoAnchorNoMatch(w, url, 8, 16);
    // positions 6 and 7 hold `/`, but another `/` follows within eleven characters
    assert url[7] == '/' && !IdChar(w, url[7]);
    assert !MatchAt(w, QueryOrPath, url, 6);
    assert url[16] == '/' && !IdChar(w, url[16]);
    assert !MatchAt(w, QueryOrPath, url, 7);
    assert url[17..28] == id;
    assert MatchAt(w, QueryOrPath, url, 16);
    FirstMatchDecides(w, url, 16);
  }

  /** A url in which both patterns match, the `youtu.be/` one further left. */
  const PriorityUrl: string := "youtu.be/AAAAAAAAAAAx&v=BBBBBBBBBBB"

  lemma PriorityUrlAnchors()
    ensures |PriorityUrl| == 35
    ensures NoAnchor(PriorityUrl, 0, 8) && NoAnchor(PriorityUrl, 9, 22)
    ensures PriorityUrl[8] == '/' && PriorityUrl[20] == 'x'
  {
  }

  lemma PriorityUrlGroups()
    ensures |PriorityUrl| == 35
    ensures PriorityUrl[22] == 'v' && PriorityUrl[23] == '='
    ensures forall k :: 24 <= k < 35 ==> PriorityUrl[k] == 'B'
    ensures PriorityUrl[0..9] == "youtu.be/"
    ensures forall k :: 9 <= k < 20 ==> PriorityUrl[k] == 'A'
  {
  }

  lemma PriorityUrlIds()
    ensures PriorityUrl[9..20] == "AAAAAAAAAAA" && PriorityUrl[24..35] == "BBBBBBBBBBB"
  {
    PriorityUrlGroups();
    assert forall k :: 0 <= k < 11 ==> "AAAAAAAAAAA"[k] == 'A' && "BBBBBBBBBBB"[k] == 'B';
  }

  lemma PriorityNoEarlyMatch(w: WordClass)
    ensures forall k :: 0 <= k < 22 ==> !MatchAt(w, QueryOrPath, PriorityUrl, k)
  {
    var url := PriorityUrl;
    PriorityUrlAnchors();
    NoAnchorNoMatch(w, url, 0, 8);
    NoAnchorNoMatch(w, url, 9, 22);
    // position 8 holds `/` and eleven `A`s, but then `x`, not `&`, `?` or the end
    assert !EndAt(url, 20);
    assert !MatchAt(w, QueryOrPath, url, 8);
  }

  /**
   * The priority matters: in this url the `youtu.be/` pattern matches first
   * (at position 0), yet the `v=` group further right is returned.
   */
  lemma PriorityExample(w: WordClass)
    requires AsciiAgrees(w)
    ensures SearchGroup(w, ShortLink, PriorityUrl) == Some("AAAAAAAAAAA")
    ensures VideoId(w, PriorityUrl) == Some("BBBBBBBBBBB")
  {
    var url := PriorityUrl;
    PriorityUrlGroups();
    PriorityNoEarlyMatch(w);
    assert w('A') && w('B');
    assert MatchAt(w, QueryOrPath, url, 22);
    FirstMatchDecides(w, url, 22);
    assert MatchAt(w, ShortLink, url, 0);
    PriorityUrlIds();
  }

  // ---------------------------------------------------------------------
  // Caption joining in get_youtube_transcript
  // ---------------------------------------------------------------------

  /** One caption fragment; the timing fields the service also returns are not modelled. */
  datatype CaptionEntry = CaptionEntry(text: string)

  /** What the captions service call ends in. */
  datatype CaptionReply =
    | Entries(entries: seq<CaptionEntry>)
    | TranscriptsDisabled
    | NoTranscriptFound
    | OtherError(message: string)

  /** What `get_youtube_transcript` does: return a value (a string or None), or let an exception through. */
  datatype Fetched = Returned(transcript: Option<string>) | Raised(message: string)

  /** `[entry["text"] for entry in transcript]` */
  function Texts(entries: seq<CaptionEntry>): (r: seq<string>)
    ensures |r| == |entries| && forall k :: 0 <= k < |r| ==> r[k] == entries[k].text
  {
    seq(|entries|, k requires 0 <= k < |entries| => entries[k].text)
  }

  /** Python's `sep.join(parts)`. */
  function Join(sep: string, parts: seq<string>): (r: string)
    decreases |parts|
    ensures |parts| == 0 ==> r == ""
    ensures |parts| >= 1 ==> StartsWith(r, parts[0])
  {
    if |parts| == 0 then ""
    else if |parts| == 1 then parts[0]
    else parts[0] + sep + Join(sep, parts[1..])
  }

  /** Python's `s.split(" ")`: the pieces between single spaces, always at least one. */
  function SplitOnSpace(s: string): (r: seq<string>)
    decreases |s|
    ensures |r| >= 1
  {
    if |s| == 0 then [""]
    else
      var rest := SplitOnSpace(s[1..]);
      if s[0] == ' ' then [""] + rest
      else [[s[0]] + rest[0]] + rest[1..]
  }

  function SumLengths(parts: seq<string>): (n: nat)
    decreases |parts|
  {
    if |parts| == 0 then 0 else |parts[0]| + SumLengths(parts[1..])
  }

  /** The joined text is the fragments' characters plus exactly one separator between neighbours. */
  lemma {:induction false} JoinLength(sep: string, parts: seq<string>)
    requires |parts| >= 1
    ensures |Join(sep, parts)| == SumLengths(parts) + |sep| * (|parts| - 1)
    decreases |parts|
  {
    if |parts| > 1 {
      JoinLength(sep, parts[1..]);
    }
  }

  /** Appending a fragment appends a separator and the fragment: the order of the service is kept. */
  lemma {:induction false} JoinSnoc(sep: string, parts: seq<string>, p: string)
    requires |parts| >= 1
    ensures Join(sep, parts + [p]) == Join(sep, parts) + sep + p
    decreases |parts|
  {
    if |parts| == 1 {
      assert parts + [p] == [parts[0], p];
    } else {
      assert (parts + [p])[1..] == parts[1..] + [p];
      JoinSnoc(sep, parts[1..], p);
    }
  }

  predicate NoSpace(s: string) {
    forall k :: 0 <= k < |s| ==> s[k] != ' '
  }

  lemma {:induction false} SplitNoSpace(a: string)
    requires NoSpace(a)
    ensures SplitOnSpace(a) == [a]
    decreases |a|
  {
    if |a| > 0 {
      SplitNoSpace(a[1..]);
      assert [a[0]] + a[1..] == a;
    }
  }

  lemma {:induction false} SplitAfterPiece(a: string, b: string)
    requires NoSpace(a)
    ensures SplitOnSpace(a + " " + b) == [a] + SplitOnSpace(b)
    decreases |a|
  {
    if |a| == 0 {
      assert a + " " + b == [' '] + b;
      assert (a + " " + b)[1..] == b;
    } else {
      assert (a + " " + b)[1..] == a[1..] + " " + b;
      SplitAfterPiece(a[1..], b);
      assert [a[0]] + a[1..] == a;
    }
  }

  /** Splitting the joined text at its spaces gives back the fragments, when no fragment holds a space. */
  lemma {:induction false} SplitJoin(parts: seq<string>)
    requires |parts| >= 1
    requires forall k :: 0 <= k < |parts| ==> NoSpace(parts[k])
    ensures SplitOnSpace(Join(" ", parts)) == parts
    decreases |parts|
  {
    if |parts| == 1 {
      SplitNoSpace(parts[0]);
    } else {
      SplitJoin(parts[1..]);
      SplitAfterPiece(parts[0], Join(" ", parts[1..]));
      assert [parts[0]] + parts[1..] == parts;
    }
  }

  /**
   * `get_youtube_transcript`, with the captions service call replaced by its
   * outcome: fragments are joined with single spaces, "disabled" and
   * "not found" become None, any other failure propagates.
   */
  function GetYoutubeTranscript(reply: CaptionReply): (r: Fetched)
    ensures r == Returned(None) <==> (reply.TranscriptsDisabled? || reply.NoTranscriptFound?)
    ensures r.Raised? <==> reply.OtherError?
    ensures r.Raised? ==> r.message == reply.message
    ensures reply.Entries? ==> r == Returned(Some(Join(" ", Texts(reply.entries))))
    ensures reply.Entries? && |reply.entries| == 0 ==> r == Returned(Some(""))
    ensures reply.Entries? && |reply.entries| >= 1 && (forall k :: 0 <= k < |reply.entries| ==> NoSpace(reply.entries[k].text))
      ==> SplitOnSpace(r.transcript.value) == Texts(reply.entries)
  {
    match reply
    case Entries(entries) =>
      var texts := Texts(entries);
      SplitJoinTexts(entries);
      Returned(Some(Join(" ", texts)))
    case TranscriptsDisabled => Returned(None)
    case NoTranscriptFound => Returned(None)
    case OtherError(message) => Raised(message)
  }

  lemma SplitJoinTexts(entries: seq<CaptionEntry>)
    ensures |entries| >= 1 && (forall k :: 0 <= k < |entries| ==> NoSpace(entries[k].text))
      ==> SplitOnSpace(Join(" ", Texts(entries))) == Texts(entries)
  {
    if |entries| >= 1 && (forall k :: 0 <= k < |entries| ==> NoSpace(entries[k].text)) {
      SplitJoin(Texts(entries));
    }
  }

  /** Two fragments "Hello" and "world" give "Hello world". */
  lemma HelloWorldExample()
    ensures GetYoutubeTranscript(Entries([CaptionEntry("Hello"), CaptionEntry("world")])) == Returned(Some("Hello world"))
  {
    assert Texts([CaptionEntry("Hello"), CaptionEntry("world")]) == ["Hello", "world"];
    var parts := ["Hello", "world"];
    assert parts[1..] == ["world"];
    assert Join(" ", parts) == "Hello" + " " + "world" == "Hello world";
  }
}
