/** The wire format of src/copilot.ts: building one frame in `sendMessage`,
    and cutting an inbound chunk into payload texts with
    `split(/Content-Length: \d+\r\n\r\n/).filter((s) => s)`. */
module Framing {
  import opened JsText

  /** "Content-Length: " */
  const HeaderPrefix: JsString :=
    [67, 111, 110, 116, 101, 110, 116, 45, 76, 101, 110, 103, 116, 104, 58, 32]

  /** "\r\n\r\n" */
  const HeaderEnd: JsString := [CR, LF, CR, LF]

  /** A frame whose header declares `digits` as the length. */
  function FrameWith(digits: JsString, body: JsString): JsString
  {
    HeaderPrefix + digits + HeaderEnd + body
  }

  /** The string `sendMessage` writes for the JSON text `json`: the header
      declares the UTF-8 byte length of the text. */
  function Frame(json: JsString): JsString
  {
    FrameWith(Decimal(Utf8Len(json)), json)
  }

  // ---------------------------------------------------------------------
  // The regular expression /Content-Length: \d+\r\n\r\n/

  /** Where the run of digits starting at `i` ends. */
  function DigitEnd(s: JsString, i: nat): (e: nat)
    requires i <= |s|
    ensures i <= e <= |s|
    ensures forall k :: i <= k < e ==> IsDigit(s[k])
    ensures e < |s| ==> !IsDigit(s[e])
    decreases |s| - i
  {
    if i < |s| && IsDigit(s[i]) then DigitEnd(s, i + 1) else i
  }

  /** The pattern matches at `q`. `\d+` is greedy and is followed by "\r", which
      is not a digit, so backtracking never finds a shorter match. */
  predicate HeaderAt(s: JsString, q: nat)
  {
    q + 16 <= |s| && s[q..q + 16] == HeaderPrefix &&
    var d := DigitEnd(s, q + 16);
    d > q + 16 && d + 4 <= |s| && s[d..d + 4] == HeaderEnd
  }

  /** The index just past the match at `q`. */
  function MatchEnd(s: JsString, q: nat): (e: nat)
    requires HeaderAt(s, q)
    ensures q + 21 <= e <= |s|
  {
    DigitEnd(s, q + 16) + 4
  }

  predicate NoHeader(s: JsString)
  {
    forall k :: 0 <= k < |s| ==> !HeaderAt(s, k)
  }

  /** The leftmost match at or after `from`. */
  function FindHeader(s: JsString, from: nat): (r: Option<nat>)
    requires from <= |s|
    ensures r.Some? ==> from <= r.value < |s| && HeaderAt(s, r.value)
    ensures r.Some? ==> forall k :: from <= k < r.value ==> !HeaderAt(s, k)
    ensures r.None? <==> forall k :: from <= k < |s| ==> !HeaderAt(s, k)
    decreases |s| - from
  {
    if from == |s| then None
    else if HeaderAt(s, from) then Some(from)
    else FindHeader(s, from + 1)
  }

  /** `String.prototype.split` with the header pattern: the text between
      leftmost, non-overlapping matches, including the empty text before a
      match at 0 and after a match at the end. */
  function Split(s: JsString): (pieces: seq<JsString>)
    ensures |pieces| >= 1
    ensures forall i :: 0 <= i < |pieces| ==> NoHeader(pieces[i])
    decreases |s|
  {
    match FindHeader(s, 0)
    case None => [s]
    case Some(q) =>
      NoHeaderBeforeFirst(s, q);
      [s[..q]] + Split(s[MatchEnd(s, q)..])
  }

  /** `filter((s) => s)`: the empty strings are dropped, the rest keep their order. */
  function DropEmpty(pieces: seq<JsString>): (r: seq<JsString>)
    ensures forall p :: p in r <==> p in pieces && p != []
    ensures |r| <= |pieces|
  {
    if pieces == [] then []
    else (if pieces[0] == [] then [] else [pieces[0]]) + DropEmpty(pieces[1..])
  }

  /** The filter works piece by piece, so the kept pieces keep their order
      and their repeats. */
  lemma {:induction false} DropEmptyConcat(a: seq<JsString>, b: seq<JsString>)
    ensures DropEmpty(a + b) == DropEmpty(a) + DropEmpty(b)
    decreases |a|
  {
    if a == [] {
      assert a + b == b;
    } else {
      assert (a + b)[1..] == a[1..] + b;
      DropEmptyConcat(a[1..], b);
    }
  }

  /** One piece is kept exactly when it is not empty. */
  lemma DropEmptyOne(p: JsString)
    ensures DropEmpty([p]) == if p == [] then [] else [p]
  {
    assert [p][1..] == [];
  }

  /** The payload texts of one inbound chunk: non-empty texts with no header
      left inside them. */
  function Payloads(chunk: JsString): (ps: seq<JsString>)
    ensures forall i :: 0 <= i < |ps| ==> ps[i] != [] && NoHeader(ps[i])
  {
    var pieces := Split(chunk);
    var kept := DropEmpty(pieces);
    forall i | 0 <= i < |kept| ensures kept[i] != [] && NoHeader(kept[i]) {
      assert kept[i] in pieces;
      var j :| 0 <= j < |pieces| && pieces[j] == kept[i];
    }
    kept
  }

  // ---------------------------------------------------------------------
  // Matches are local: they depend only on the text they cover

  lemma {:induction false} DigitEndOfPrefix(s: JsString, n: nat, i: nat)
    requires i <= n <= |s|
    ensures DigitEnd(s[..n], i) < n ==> DigitEnd(s, i) == DigitEnd(s[..n], i)
    ensures DigitEnd(s, i) < n ==> DigitEnd(s[..n], i) == DigitEnd(s, i)
    decreases n - i
  {
    if i < n {
      assert s[..n][i] == s[i];
      if IsDigit(s[i]) {
        DigitEndOfPrefix(s, n, i + 1);
      }
    }
  }

  /** A match inside a prefix is a match of the whole text. */
  lemma HeaderAtOfPrefix(s: JsString, n: nat, k: nat)
    requires n <= |s| && HeaderAt(s[..n], k)
    ensures HeaderAt(s, k) && MatchEnd(s, k) == MatchEnd(s[..n], k)
  {
    DigitEndOfPrefix(s, n, k + 16);
    var d := DigitEnd(s, k + 16);
    assert s[k..k + 16] == s[..n][k..k + 16];
    assert s[d..d + 4] == s[..n][d..d + 4];
  }

  /** A match of the whole text that ends within a prefix is a match of the prefix. */
  lemma HeaderAtInPrefix(s: JsString, n: nat, k: nat)
    requires n <= |s| && HeaderAt(s, k) && MatchEnd(s, k) <= n
    ensures HeaderAt(s[..n], k)
  {
    DigitEndOfPrefix(s, n, k + 16);
    var d := DigitEnd(s, k + 16);
    assert s[k..k + 16] == s[..n][k..k + 16];
    assert s[d..d + 4] == s[..n][d..d + 4];
  }

  lemma NoHeaderBeforeFirst(s: JsString, q: nat)
    requires q <= |s|
    requires forall k :: 0 <= k < q ==> !HeaderAt(s, k)
    ensures NoHeader(s[..q])
  {
    forall k | 0 <= k < q ensures !HeaderAt(s[..q], k) {
      if HeaderAt(s[..q], k) { HeaderAtOfPrefix(s, q, k); }
    }
  }

  /** A match that starts inside `b` cannot reach into a following "Content-Length: ",
      since the only "C" of the pattern is its first character. */
  lemma NoStraddle(b: JsString, t: JsString)
    requires NoHeader(b)
    requires t == [] || (|t| >= 16 && t[..16] == HeaderPrefix)
    ensures forall k :: 0 <= k < |b| ==> !HeaderAt(b + t, k)
  {
    forall k | 0 <= k < |b| ensures !HeaderAt(b + t, k) {
      if t == [] {
        assert b + t == b;
      } else if HeaderAt(b + t, k) {
        MatchStartingInside(b, t, k);
      }
    }
  }

  lemma MatchStartingInside(b: JsString, t: JsString, k: nat)
    requires k < |b|
    requires |t| >= 16 && t[..16] == HeaderPrefix
    requires HeaderAt(b + t, k)
    ensures HeaderAt(b, k)
  {
    var s := b + t;
    var n := |b|;
    assert s[n] == 67 by { assert s[n] == t[0] == t[..16][0]; }
    if n < k + 16 {
      assert false;
    } else {
      var d := DigitEnd(s, k + 16);
      if n < d {
        assert false;
      } else if n < d + 4 {
        assert false;
      } else {
        assert s[..n] == b;
        HeaderAtInPrefix(s, n, k);
      }
    }
  }

  /** The header of a frame matches at its start and ends where the body begins. */
  lemma HeaderOfFrame(digits: JsString, rest: JsString)
    requires |digits| >= 1 && AllDigits(digits)
    ensures HeaderAt(FrameWith(digits, rest), 0)
    ensures MatchEnd(FrameWith(digits, rest), 0) == 20 + |digits|
    ensures FrameWith(digits, rest)[20 + |digits|..] == rest
  {
    var s := FrameWith(digits, rest);
    var n := 16 + |digits|;
    assert s[..16] == HeaderPrefix;
    assert s[16..n] == digits;
    assert s[n..n + 4] == HeaderEnd;
    DigitsRun(s, 16, n);
  }

  lemma {:induction false} DigitsRun(s: JsString, i: nat, n: nat)
    requires i <= n < |s| && !IsDigit(s[n])
    requires forall k :: i <= k < n ==> IsDigit(s[k])
    ensures DigitEnd(s, i) == n
    decreases n - i
  {
    if i < n { DigitsRun(s, i + 1, n); }
  }

  // ---------------------------------------------------------------------
  // What splitting a stream of frames gives back

  /** A frame as it may appear on the wire: any digits in the header. */
  datatype WireFrame = WireFrame(digits: JsString, body: JsString)

  predicate WellFormed(f: WireFrame)
  {
    |f.digits| >= 1 && AllDigits(f.digits) && f.body != [] && NoHeader(f.body)
  }

  function Stream(fs: seq<WireFrame>): JsString
  {
    if fs == [] then [] else FrameWith(fs[0].digits, fs[0].body) + Stream(fs[1..])
  }

  function Bodies(fs: seq<WireFrame>): (bs: seq<JsString>)
    ensures |bs| == |fs|
    ensures forall i :: 0 <= i < |fs| ==> bs[i] == fs[i].body
  {
    if fs == [] then [] else [fs[0].body] + Bodies(fs[1..])
  }

  /** A header-free body followed by frames splits into the body and then
      the bodies of those frames. */
  lemma {:induction false} SplitBodyThenFrames(b: JsString, fs: seq<WireFrame>)
    requires NoHeader(b)
    requires forall i :: 0 <= i < |fs| ==> WellFormed(fs[i])
    ensures Split(b + Stream(fs)) == [b] + Bodies(fs)
    decreases |fs|
  {
    if fs == [] {
      assert b + Stream(fs) == b;
    } else {
      var rest := fs[0].body + Stream(fs[1..]);
      var t := FrameWith(fs[0].digits, rest);
      assert Stream(fs) == t;
      SplitAtBody(b, fs[0].digits, rest);
      SplitBodyThenFrames(fs[0].body, fs[1..]);
    }
  }

  /** The first match in `b + FrameWith(digits, rest)` is the frame's header. */
  lemma SplitAtBody(b: JsString, digits: JsString, rest: JsString)
    requires NoHeader(b)
    requires |digits| >= 1 && AllDigits(digits)
    ensures Split(b + FrameWith(digits, rest)) == [b] + Split(rest)
  {
    var t := FrameWith(digits, rest);
    var s := b + t;
    HeaderOfFrame(digits, rest);
    assert t[..16] == HeaderPrefix;
    NoStraddle(b, t);
    HeaderShift(b, t);
    SplitAtFirst(s, |b|);
    assert s[..|b|] == b;
    assert s[MatchEnd(s, |b|)..] == t[MatchEnd(t, 0)..];
  }

  /** Splitting at the leftmost match. */
  lemma SplitAtFirst(s: JsString, q: nat)
    requires HeaderAt(s, q)
    requires forall k :: 0 <= k < q ==> !HeaderAt(s, k)
    ensures Split(s) == [s[..q]] + Split(s[MatchEnd(s, q)..])
  {
    assert FindHeader(s, 0) == Some(q);
  }

  /** A match at the start of `t` is a match of `b + t` at `|b|`. */
  lemma HeaderShift(b: JsString, t: JsString)
    requires HeaderAt(t, 0)
    ensures HeaderAt(b + t, |b|) && MatchEnd(b + t, |b|) == |b| + MatchEnd(t, 0)
  {
    var s := b + t;
    DigitEndShift(b, t, 16);
    var d := DigitEnd(t, 16);
    assert s[|b|..|b| + 16] == t[..16];
    assert s[|b| + d..|b| + d + 4] == t[d..d + 4];
  }

  lemma {:induction false} DigitEndShift(b: JsString, t: JsString, i: nat)
    requires i <= |t|
    ensures DigitEnd(b + t, |b| + i) == |b| + DigitEnd(t, i)
    decreases |t| - i
  {
    if i < |t| {
      assert (b + t)[|b| + i] == t[i];
      if IsDigit(t[i]) { DigitEndShift(b, t, i + 1); }
    }
  }

  /** The split loses nothing but the headers: every chunk is its first piece
      followed by frames whose bodies are the other pieces, in order, and
      whose headers carry non-empty runs of digits. */
  lemma {:induction false} SplitRebuilds(s: JsString) returns (fs: seq<WireFrame>)
    ensures forall i :: 0 <= i < |fs| ==> |fs[i].digits| >= 1 && AllDigits(fs[i].digits)
    ensures s == Split(s)[0] + Stream(fs)
    ensures Split(s)[1..] == Bodies(fs)
    decreases |s|
  {
    var r := FindHeader(s, 0);
    if r.None? {
      fs := [];
    } else {
      var q := r.value;
      var e := MatchEnd(s, q);
      var x := Split(s[e..]);
      var ft := SplitRebuilds(s[e..]);
      var f := WireFrame(s[q + 16..e - 4], x[0]);
      fs := [f] + ft;
      ConsDigits(s, q, x[0], ft);
      SplitAtFirst(s, q);
      RebuildAtMatch(s, q, x[0], ft);
      BodiesCons(f, ft);
      assert x == [x[0]] + x[1..];
    }
  }

  /** A chunk with a match at `q`, whose rest is `body` and then the frames
      `fs`, is the text before the match and then one more frame. */
  lemma RebuildAtMatch(s: JsString, q: nat, body: JsString, fs: seq<WireFrame>)
    requires HeaderAt(s, q)
    requires s[MatchEnd(s, q)..] == body + Stream(fs)
    ensures s == s[..q] + Stream([WireFrame(s[q + 16..MatchEnd(s, q) - 4], body)] + fs)
  {
    var f := WireFrame(s[q + 16..MatchEnd(s, q) - 4], body);
    CutAtMatch(s, q);
    StreamCons(f, fs);
    FrameWithAppend(f.digits, body, Stream(fs));
  }

  lemma ConsDigits(s: JsString, q: nat, body: JsString, fs: seq<WireFrame>)
    requires HeaderAt(s, q)
    requires forall i :: 0 <= i < |fs| ==> |fs[i].digits| >= 1 && AllDigits(fs[i].digits)
    ensures var gs := [WireFrame(s[q + 16..MatchEnd(s, q) - 4], body)] + fs;
      forall i :: 0 <= i < |gs| ==> |gs[i].digits| >= 1 && AllDigits(gs[i].digits)
  {
    MatchDigits(s, q);
  }

  /** The digits of a match form a non-empty run. */
  lemma MatchDigits(s: JsString, q: nat)
    requires HeaderAt(s, q)
    ensures |s[q + 16..MatchEnd(s, q) - 4]| >= 1 && AllDigits(s[q + 16..MatchEnd(s, q) - 4])
  {
    var digits := s[q + 16..MatchEnd(s, q) - 4];
    forall k | 0 <= k < |digits| ensures IsDigit(digits[k]) {
      assert digits[k] == s[q + 16 + k];
    }
  }

  /** A chunk with a match at `q` is the text before it and a frame. */
  lemma CutAtMatch(s: JsString, q: nat)
    requires HeaderAt(s, q)
    ensures s == s[..q] + FrameWith(s[q + 16..MatchEnd(s, q) - 4], s[MatchEnd(s, q)..])
  {
    CutAround(s, q, MatchEnd(s, q) - 4);
  }

  lemma CutAround(s: JsString, q: nat, d: nat)
    requires q + 16 <= d && d + 4 <= |s|
    requires s[q..q + 16] == HeaderPrefix && s[d..d + 4] == HeaderEnd
    ensures s == s[..q] + FrameWith(s[q + 16..d], s[d + 4..])
  {
    assert s == s[..q] + s[q..q + 16] + s[q + 16..d] + s[d..d + 4] + s[d + 4..];
  }

  lemma FrameWithAppend(digits: JsString, body: JsString, rest: JsString)
    ensures FrameWith(digits, body + rest) == FrameWith(digits, body) + rest
  {
  }

  lemma StreamCons(f: WireFrame, fs: seq<WireFrame>)
    ensures Stream([f] + fs) == FrameWith(f.digits, f.body) + Stream(fs)
  {
    assert ([f] + fs)[1..] == fs;
  }

  lemma BodiesCons(f: WireFrame, fs: seq<WireFrame>)
    ensures Bodies([f] + fs) == [f.body] + Bodies(fs)
  {
    assert ([f] + fs)[1..] == fs;
  }

  /** Frames with non-empty, header-free bodies split back into exactly their
      bodies, in order, whatever lengths their headers declare. */
  lemma {:induction false} PayloadsOfStream(fs: seq<WireFrame>)
    requires forall i :: 0 <= i < |fs| ==> WellFormed(fs[i])
    ensures Payloads(Stream(fs)) == Bodies(fs)
  {
    assert [] + Stream(fs) == Stream(fs);
    SplitBodyThenFrames([], fs);
    DropLeadingEmpty(Bodies(fs));
    DropEmptyOfBodies(fs);
  }

  lemma DropLeadingEmpty(pieces: seq<JsString>)
    ensures DropEmpty([[]] + pieces) == DropEmpty(pieces)
  {
    assert ([[]] + pieces)[1..] == pieces;
  }

  lemma {:induction false} DropEmptyOfBodies(fs: seq<WireFrame>)
    requires forall i :: 0 <= i < |fs| ==> fs[i].body != []
    ensures DropEmpty(Bodies(fs)) == Bodies(fs)
  {
    if fs != [] {
      DropEmptyOfBodies(fs[1..]);
      assert Bodies(fs)[1..] == Bodies(fs[1..]);
    }
  }

  /** The frame of one message splits back into its JSON text. */
  lemma PayloadsOfFrame(json: JsString)
    requires json != [] && NoHeader(json)
    ensures Payloads(Frame(json)) == [json]
  {
    var f := WireFrame(Decimal(Utf8Len(json)), json);
    assert Stream([f]) == Frame(json) by {
      assert Stream([f][1..]) == [];
    }
    PayloadsOfStream([f]);
  }

  /** The length a header declares, if the text starts with one. */
  function DeclaredLength(s: JsString): (r: Option<nat>)
    ensures r.Some? <==> HeaderAt(s, 0)
  {
    if HeaderAt(s, 0) then Some(DigitsValue(s[16..DigitEnd(s, 16)])) else None
  }

  /** The header of a frame declares the body's UTF-8 byte length, not its
      number of code units. */
  lemma DeclaredLengthIsByteLength(json: JsString)
    ensures DeclaredLength(Frame(json)) == Some(Utf8Len(json))
  {
    var digits := Decimal(Utf8Len(json));
    HeaderOfFrame(digits, json);
    var s := Frame(json);
    assert s[16..DigitEnd(s, 16)] == digits;
    DecimalRoundTrip(Utf8Len(json));
  }
}
