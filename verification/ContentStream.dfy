/**
 Message framing over a byte stream: 3rd/cppdap/src/content_stream.cpp, the
 Base Protocol of the Debug Adapter Protocol. Bytes are characters.

 What a read returns is specified on the whole stream that lies ahead; the
 reader, which sees it through a buffer filled by arbitrarily short reads, is
 proved to do exactly that, however the source splits the bytes.
 */
module ContentStream {
  import opened Common
  import opened Text

  const TOKEN := "Content-Length:"
  const BLANKS := " \t"
  const DECIMALS := "0123456789"
  const HEADER_END := "\r\n\r\n"

  /** Drops bytes until the stream starts with the token, or is too short for it. */
  function Resync(s: string, token: string): string {
    if |s| < |token| || |s| == 0 || OccursAt(s, token, 0) then s else Resync(s[1..], token)
  }

  /** Where the run of the given characters that starts at i ends. */
  function RunEnd(s: string, i: nat, chars: string): (j: nat)
    ensures i <= |s| ==> i <= j <= |s|
    decreases |s| - i
  {
    if i < |s| && s[i] in chars then RunEnd(s, i + 1, chars) else i
  }

  /** The same, but a NUL that ends the run is passed over, as strchr finds it. */
  function SkipRun(s: string, i: nat, chars: string): nat {
    var j := RunEnd(s, i, chars);
    if j < |s| && s[j] == '\0' then j + 1 else j
  }

  /** The length a header states, and the index behind its digits. */
  datatype LengthField = LengthField(length: nat, next: nat)

  function ParseLengthField(r: string): LengthField
    requires |TOKEN| <= |r|
  {
    var i := SkipRun(r, |TOKEN|, BLANKS);
    LengthField(Value(r[i..RunEnd(r, i, DECIMALS)], 10), SkipRun(r, i, DECIMALS))
  }

  /** The message behind a length field, "" for a failure, and the bytes left ahead. */
  function TakeContent(r: string, f: LengthField): (string, string) {
    var start := f.next + |HEADER_END|;
    if f.length == 0 || !OccursAt(r, HEADER_END, f.next) || |r| < start + f.length then ("", r)
    else (r[start..start + f.length], r[start + f.length..])
  }

  /** One read of the bytes ahead. */
  function ReadStream(s: string): (string, string) {
    var r := Resync(s, TOKEN);
    if |r| < |TOKEN| then ("", r) else TakeContent(r, ParseLengthField(r))
  }

  /** The results of k reads in a row. */
  function Reads(read: string -> (string, string), s: string, k: nat): seq<string>
    decreases k
  {
    if k == 0 then [] else [read(s).0] + Reads(read, read(s).1, k - 1)
  }

  function Header(length: nat): string {
    TOKEN + " " + Render(length, 10) + HEADER_END
  }

  function Frame(msg: string): string {
    Header(|msg|) + msg
  }

  function Framed(frame: string -> string, msgs: seq<string>): string {
    if |msgs| == 0 then "" else frame(msgs[0]) + Framed(frame, msgs[1..])
  }

  function Frames(msgs: seq<string>): string {
    Framed(Frame, msgs)
  }

  /* Resynchronisation */

  lemma OccursInTail(s: string, p: string, i: nat)
    requires |s| > 0
    ensures OccursAt(s, p, i + 1) <==> OccursAt(s[1..], p, i)
  {
    if i + 1 + |p| <= |s| {
      assert s[1..][i..i + |p|] == s[i + 1..i + 1 + |p|];
    }
  }

  /** The bytes dropped are exactly those before the first token. */
  lemma {:induction false} ResyncDropsToFirstToken(s: string, token: string) returns (d: nat)
    requires token != ""
    ensures d <= |s| && Resync(s, token) == s[d..]
    ensures forall i | 0 <= i < d :: !OccursAt(s, token, i)
    ensures OccursAt(s, token, d) <==> |s| - d >= |token|
    ensures Resync(Resync(s, token), token) == Resync(s, token)
  {
    if |s| < |token| || OccursAt(s, token, 0) {
      d := 0;
    } else {
      var t := ResyncDropsToFirstToken(s[1..], token);
      d := t + 1;
      OccursInTail(s, token, t);
      forall i | 0 <= i < d ensures !OccursAt(s, token, i) {
        if i > 0 {
          OccursInTail(s, token, i - 1);
        }
      }
      assert s[1..][t..] == s[d..];
    }
  }

  /** Conservation: what lies ahead after a read is a suffix of what lay ahead,
      and the message is the bytes right before it. */
  lemma ReadLeavesSuffix(s: string) returns (d: nat)
    ensures d <= |s| && s[d..] == ReadStream(s).0 + ReadStream(s).1
  {
    d := ResyncDropsToFirstToken(s, TOKEN);
    if |s| - d >= |TOKEN| {
      var k := ContentIsSuffix(s[d..], ParseLengthField(s[d..]));
      assert s[d..][k..] == s[d + k..];
      d := d + k;
    }
  }

  lemma ContentIsSuffix(r: string, f: LengthField) returns (k: nat)
    ensures k <= |r| && r[k..] == TakeContent(r, f).0 + TakeContent(r, f).1
  {
    k := if TakeContent(r, f).0 == "" then 0 else f.next + |HEADER_END|;
    if k > 0 {
      assert r[k..] == r[k..k + f.length] + r[k + f.length..];
    }
  }

  lemma ReadAfterResync(s: string)
    ensures ReadStream(s) == ReadStream(Resync(s, TOKEN))
  {
    var _ := ResyncDropsToFirstToken(s, TOKEN);
  }

  /** A failed read stays at the header it failed on: every later read of the
      same stream fails there too. */
  lemma FailedReadRepeats(s: string)
    requires ReadStream(s).0 == ""
    ensures ReadStream(s).1 == Resync(s, TOKEN) && ReadStream(ReadStream(s).1) == ReadStream(s)
  {
    ReadAfterResync(s);
  }

  lemma {:induction false} ReadsAfterFailure(read: string -> (string, string), s: string, k: nat)
    requires read(s) == ("", s)
    ensures Reads(read, s, k) == seq(k, _ => "")
  {
    if k > 0 {
      ReadsAfterFailure(read, s, k - 1);
    }
  }

  /* The round trip */

  lemma {:induction false} RunStops(s: string, i: nat, j: nat, chars: string)
    requires i <= j < |s| && (forall k | i <= k < j :: s[k] in chars) && s[j] !in chars
    ensures RunEnd(s, i, chars) == j
    decreases j - i
  {
    if i < j {
      RunStops(s, i + 1, j, chars);
    }
  }

  lemma ValueGrows(s: string, i: nat, k: nat)
    requires i <= k < |s|
    ensures Value(s[i..k + 1], 10) == Value(s[i..k], 10) * 10 + DigitValue(s[k])
  {
    assert s[i..k + 1][..k - i] == s[i..k];
  }

  /** The digits from start to i have been read as a number. */
  ghost predicate DigitsSoFar(s: string, start: nat, i: nat, chars: string, len: nat) {
    start <= i <= |s| && RunEnd(s, start, chars) == RunEnd(s, i, chars) && len == Value(s[start..i], 10)
  }

  lemma OneMoreDigit(s: string, start: nat, i: nat, chars: string, len: nat)
    requires DigitsSoFar(s, start, i, chars, len) && i < |s| && s[i] in chars
    ensures DigitsSoFar(s, start, i + 1, chars, len * 10 + DigitValue(s[i]))
  {
    ValueGrows(s, start, i);
  }

  lemma DigitsEnd(s: string, start: nat, i: nat, chars: string, len: nat)
    requires DigitsSoFar(s, start, i, chars, len)
    ensures (i < |s| ==> s[i] !in chars) ==>
      (RunEnd(s, start, chars) == i && SkipRun(s, start, chars) == if i < |s| && s[i] == '\0' then i + 1 else i)
  {
  }

  lemma DecimalDigit(c: char)
    ensures c in DECIMALS <==> IsDigit(c, 10)
  {
    assert '0' <= c <= '9' ==> c == DECIMALS[(c - '0') as int];
  }

  lemma DigitsAreRead(s: string, i: nat, digits: string)
    requires AllDigits(digits, 10) && i + |digits| < |s| && s[i..i + |digits|] == digits && s[i + |digits|] == '\r'
    ensures RunEnd(s, i, DECIMALS) == SkipRun(s, i, DECIMALS) == i + |digits|
  {
    var j := i + |digits|;
    forall k | i <= k < j ensures s[k] in DECIMALS {
      assert s[k] == digits[k - i];
      DecimalDigit(digits[k - i]);
    }
    DecimalDigit(s[j]);
    RunStops(s, i, j, DECIMALS);
  }

  lemma OneBlankIsSkipped(s: string, i: nat)
    requires i + 1 < |s| && s[i] == ' ' && IsDigit(s[i + 1], 10)
    ensures SkipRun(s, i, BLANKS) == i + 1
  {
    assert BLANKS[0] == ' ';
    RunStops(s, i, i + 1, BLANKS);
  }

  lemma FourParts(a: string, b: string, c: string, d: string, tail: string)
    ensures var s := a + b + c + d + tail;
      var j := |a| + |b| + |c|;
      s[..|a|] == a && s[|a|..|a| + |b|] == b && s[|a| + |b|..j] == c && s[j..j + |d|] == d
  {
  }

  lemma HeaderIsRead(length: nat, tail: string)
    ensures var s := Header(length) + tail;
      && Resync(s, TOKEN) == s
      && ParseLengthField(s) == LengthField(length, |Header(length)| - |HEADER_END|)
      && OccursAt(s, HEADER_END, |Header(length)| - |HEADER_END|)
  {
    var digits := Render(length, 10);
    var s := Header(length) + tail;
    var j := |TOKEN| + 1 + |digits|;
    FourParts(TOKEN, " ", digits, HEADER_END, tail);
    assert s[|TOKEN| + 1] == digits[0];
    OneBlankIsSkipped(s, |TOKEN|);
    DigitsAreRead(s, |TOKEN| + 1, digits);
    ValueOfRender(length, 10);
  }

  /** A non-empty message is read back, and not one byte more is consumed. */
  lemma FrameIsRead(msg: string, tail: string)
    requires msg != ""
    ensures ReadStream(Frame(msg) + tail) == (msg, tail)
  {
    var s := Frame(msg) + tail;
    assert s == Header(|msg|) + (msg + tail);
    HeaderIsRead(|msg|, msg + tail);
    var start := |Header(|msg|)|;
    assert s[start..start + |msg|] == msg && s[start + |msg|..] == tail;
  }

  /** An empty message blocks the stream: its header is never consumed. */
  lemma EmptyFrameBlocks(tail: string)
    ensures ReadStream(Frame("") + tail) == ("", Frame("") + tail)
  {
    assert Frame("") + tail == Header(0) + tail;
    HeaderIsRead(0, tail);
  }

  /** Bytes in front of a frame are skipped if no token starts among them. */
  lemma NoiseIsSkipped(noise: string, msg: string, tail: string)
    requires msg != "" && forall i | 0 <= i < |noise| :: !OccursAt(noise, TOKEN, i)
    ensures ReadStream(noise + Frame(msg) + tail) == (msg, tail)
  {
    var ahead := Frame(msg) + tail;
    assert noise + Frame(msg) + tail == noise + ahead;
    assert ahead[..|TOKEN|] == TOKEN;
    NoiseIsDropped(noise, ahead, TOKEN);
    FrameIsRead(msg, tail);
    ReadAfterResync(noise + ahead);
    ReadAfterResync(ahead);
  }

  lemma NoiseIsDropped(noise: string, ahead: string, token: string)
    requires token != "" && forall k | 0 < k < |token| :: token[k] != token[0]
    requires OccursAt(ahead, token, 0) && forall i | 0 <= i < |noise| :: !OccursAt(noise, token, i)
    ensures Resync(noise + ahead, token) == ahead
  {
    var s := noise + ahead;
    var d := ResyncDropsToFirstToken(s, token);
    assert s[|noise|..] == ahead;
    assert s[|noise|..|noise| + |token|] == ahead[..|token|];
    assert OccursAt(s, token, |noise|);
    if d < |noise| {
      if d + |token| <= |noise| {
        assert noise[d..d + |token|] == s[d..d + |token|];
        assert OccursAt(noise, token, d);
      } else {
        OccurrenceHas(s, token, d, |noise| - d);
      }
    }
  }

  lemma OccurrenceHas(s: string, p: string, i: nat, k: nat)
    requires OccursAt(s, p, i) && k < |p|
    ensures s[i + k] == p[k]
  {
    assert s[i + k] == s[i..i + |p|][k];
  }

  /* Which headers are taken */

  /** A header field: the token, blanks, digits, and behind either a NUL that is passed
      over. */
  ghost predicate IsField(r: string, blanks: string, nul: string, digits: string, nul': string, behind: string) {
    && r == TOKEN + blanks + nul + digits + nul' + behind
    && (forall c <- blanks :: c in " \t") && (forall c <- digits :: c in "0123456789")
    && (nul == "" || nul == "\0") && (nul' == "" || nul' == "\0")
  }

  /** The bytes ahead, from the first token on, are such a field, whose digits denote the
      length of the message, the end of the header, and the message. */
  ghost predicate IsFrame(r: string, msg: string, tail: string) {
    exists blanks, nul, digits, nul' ::
      IsField(r, blanks, nul, digits, nul', HEADER_END + msg + tail) && Value(digits, 10) == |msg|
  }

  /** A run, and the NUL or nothing behind it, ahead of some other character. */
  lemma RunIsSkipped(r: string, i: nat, run: string, nul: string, chars: string)
    requires i + |run| + |nul| < |r| && r[i..i + |run|] == run && r[i + |run|..i + |run| + |nul|] == nul
    requires (forall c <- run :: c in chars) && (nul == "" || nul == "\0") && '\0' !in chars
    requires r[i + |run| + |nul|] !in chars && r[i + |run| + |nul|] != '\0'
    ensures RunEnd(r, i, chars) == i + |run| && SkipRun(r, i, chars) == i + |run| + |nul|
  {
    var j := i + |run|;
    forall k | i <= k < j ensures r[k] in chars {
      assert r[k] == run[k - i];
    }
    assert nul != "" ==> r[j] == nul[0];
    RunStops(r, i, j, chars);
  }

  lemma DigitIsNoBlank(c: char)
    requires c in DECIMALS
    ensures c !in BLANKS && c != '\0' && '\0' !in BLANKS
  {
    DecimalDigit(c);
    assert forall i | 0 <= i < |BLANKS| :: BLANKS[i] == ' ' || BLANKS[i] == '\t';
  }

  lemma SixParts(r: string, a: string, b: string, c: string, d: string, e: string, f: string)
    requires r == a + b + c + d + e + f
    ensures |r| == |a| + |b| + |c| + |d| + |e| + |f|
    ensures r[|a|..|a| + |b|] == b && r[|a| + |b|..|a| + |b| + |c|] == c
    ensures var i := |a| + |b| + |c|;
      && r[i..i + |d|] == d && r[i + |d|..i + |d| + |e|] == e
      && (d != "" ==> r[i] == d[0]) && (f != "" ==> r[i + |d| + |e|] == f[0])
  {
  }

  /** A run from t on, the NUL or nothing, another run from i on, the NUL or nothing, and
      a carriage return at k. */
  ghost predicate RunsAt(r: string, t: nat, run: string, nul: string, i: nat, run': string, nul': string, k: nat) {
    && i == t + |run| + |nul| && k == i + |run'| + |nul'| && k < |r|
    && r[t..t + |run|] == run && r[t + |run|..i] == nul && r[i..i + |run'|] == run' && r[i + |run'|..k] == nul'
    && run' != "" && r[i] == run'[0] && r[k] == '\r'
  }

  lemma PartsAreRuns(r: string, token: string, run: string, nul: string, run': string, nul': string, behind: string)
    returns (i: nat, k: nat)
    requires r == token + run + nul + run' + nul' + behind && run' != "" && behind != "" && behind[0] == '\r'
    ensures RunsAt(r, |token|, run, nul, i, run', nul', k) && k == |r| - |behind|
  {
    i, k := |token| + |run| + |nul|, |r| - |behind|;
    SixParts(r, token, run, nul, run', nul', behind);
  }

  lemma RunsAreParsed(r: string, t: nat, run: string, nul: string, i: nat, run': string, nul': string, k: nat)
    requires RunsAt(r, t, run, nul, i, run', nul', k)
    requires (forall c <- run :: c in BLANKS) && (forall c <- run' :: c in DECIMALS)
    requires (nul == "" || nul == "\0") && (nul' == "" || nul' == "\0")
    ensures SkipRun(r, t, BLANKS) == i && RunEnd(r, i, DECIMALS) == i + |run'| && SkipRun(r, i, DECIMALS) == k
  {
    DigitIsNoBlank(run'[0]);
    DecimalDigit('\r');
    DecimalDigit('\0');
    RunIsSkipped(r, t, run, nul, BLANKS);
    RunIsSkipped(r, i, run', nul', DECIMALS);
  }

  lemma FieldIsParsed(r: string, blanks: string, nul: string, digits: string, nul': string, behind: string)
    requires IsField(r, blanks, nul, digits, nul', behind) && digits != "" && behind != "" && behind[0] == '\r'
    ensures ParseLengthField(r) == LengthField(Value(digits, 10), |r| - |behind|)
  {
    var i, k := PartsAreRuns(r, TOKEN, blanks, nul, digits, nul', behind);
    RunsAreParsed(r, |TOKEN|, blanks, nul, i, digits, nul', k);
  }

  /** Where the skipping of a run ends, it has passed over the run and a NUL or nothing. */
  lemma {:induction false} SkippedIsRun(r: string, i: nat, chars: string)
    requires i <= |r|
    ensures var j, k := RunEnd(r, i, chars), SkipRun(r, i, chars);
      i <= j <= k <= |r| && (forall c <- r[i..j] :: c in chars) && (r[j..k] == "" || r[j..k] == "\0")
    decreases |r| - i
  {
    if i < |r| && r[i] in chars {
      SkippedIsRun(r, i + 1, chars);
      var j := RunEnd(r, i, chars);
      assert r[i..j] == [r[i]] + r[i + 1..j];
    } else {
      assert r[i..i] == "";
    }
  }

  lemma SplitAt5(r: string, a: nat, b: nat, c: nat, d: nat, e: nat)
    requires a <= b <= c <= d <= e <= |r|
    ensures r == r[..a] + r[a..b] + r[b..c] + r[c..d] + r[d..e] + r[e..]
  {
  }

  lemma ParsedIsField(r: string) returns (blanks: string, nul: string, digits: string, nul': string)
    requires OccursAt(r, TOKEN, 0)
    ensures ParseLengthField(r).next <= |r|
    ensures IsField(r, blanks, nul, digits, nul', r[ParseLengthField(r).next..]) && Value(digits, 10) == ParseLengthField(r).length
  {
    var b, i := RunEnd(r, |TOKEN|, BLANKS), SkipRun(r, |TOKEN|, BLANKS);
    SkippedIsRun(r, |TOKEN|, BLANKS);
    var d, next := RunEnd(r, i, DECIMALS), SkipRun(r, i, DECIMALS);
    SkippedIsRun(r, i, DECIMALS);
    blanks, nul, digits, nul' := r[|TOKEN|..b], r[b..i], r[i..d], r[d..next];
    assert r[..|TOKEN|] == r[0..|TOKEN|] == TOKEN;
    SplitAt5(r, |TOKEN|, b, i, d, next);
  }

  lemma FieldsEnd(r: string, msg: string, tail: string, blanks: string, nul: string, digits: string, nul': string)
    requires IsField(r, blanks, nul, digits, nul', HEADER_END + msg + tail) && Value(digits, 10) == |msg| && msg != ""
    ensures TakeContent(r, ParseLengthField(r)) == (msg, tail)
  {
    var behind := HEADER_END + msg + tail;
    FieldIsParsed(r, blanks, nul, digits, nul', behind);
    var next := |r| - |behind|;
    assert r[next..] == behind;
    BehindHeader(r, next, HEADER_END, msg, tail);
  }

  lemma BehindHeader(r: string, next: nat, end: string, msg: string, tail: string)
    requires next <= |r| && r[next..] == end + msg + tail
    ensures OccursAt(r, end, next)
    ensures var start := next + |end|; r[start..start + |msg|] == msg && r[start + |msg|..] == tail
  {
    var start := next + |end|;
    assert r[next..][..|end|] == end && r[next..][|end|..|end| + |msg|] == msg && r[next..][|end| + |msg|..] == tail;
    assert r[next..start] == r[next..][..|end|];
    assert r[start..start + |msg|] == r[next..][|end|..|end| + |msg|];
    assert r[start + |msg|..] == r[next..][|end| + |msg|..];
  }

  lemma ContentBehindHeader(r: string, f: LengthField, msg: string, tail: string)
    requires TakeContent(r, f) == (msg, tail) && msg != "" && f.next <= |r|
    ensures r[f.next..] == HEADER_END + msg + tail && f.length == |msg|
  {
    var start := f.next + |HEADER_END|;
    assert r[f.next..] == r[f.next..start] + r[start..start + f.length] + r[start + f.length..];
  }

  /** A read delivers exactly the messages in frames of this form, and what it leaves is
      what lies behind. */
  lemma ReadIff(s: string, msg: string, tail: string)
    requires msg != ""
    ensures ReadStream(s) == (msg, tail) <==> IsFrame(Resync(s, TOKEN), msg, tail)
  {
    var r := Resync(s, TOKEN);
    var d := ResyncDropsToFirstToken(s, TOKEN);
    if ReadStream(s) == (msg, tail) {
      assert r[0..|TOKEN|] == s[d..d + |TOKEN|];
      var blanks, nul, digits, nul' := ParsedIsField(r);
      ContentBehindHeader(r, ParseLengthField(r), msg, tail);
    }
    if IsFrame(r, msg, tail) {
      var blanks, nul, digits, nul' :|
        IsField(r, blanks, nul, digits, nul', HEADER_END + msg + tail) && Value(digits, 10) == |msg|;
      FieldsEnd(r, msg, tail, blanks, nul, digits, nul');
    }
  }

  /** Every message behind an empty one is empty too. */
  predicate EmptyOnlyAtEnd(msgs: seq<string>) {
    forall i, j | 0 <= i < j < |msgs| :: msgs[i] == "" ==> msgs[j] == ""
  }

  /** The round trip over a whole session: the reads return the written
      messages exactly when no message follows an empty one. */
  lemma RoundTripIff(msgs: seq<string>, tail: string)
    ensures Reads(ReadStream, Frames(msgs) + tail, |msgs|) == msgs <==> EmptyOnlyAtEnd(msgs)
  {
    forall m, t | m != "" ensures ReadStream(Frame(m) + t) == (m, t) { FrameIsRead(m, t); }
    forall t ensures ReadStream(Frame("") + t) == ("", Frame("") + t) { EmptyFrameBlocks(t); }
    RoundTripOf(ReadStream, Frame, msgs, tail);
  }

  lemma FirstRead(read: string -> (string, string), s: string, msg: string, ahead: string, k: nat)
    requires read(s) == (msg, ahead) && k > 0
    ensures Reads(read, s, k) == [msg] + Reads(read, ahead, k - 1)
  {
  }

  lemma EmptyOnlyLater(msgs: seq<string>)
    requires |msgs| > 0 && msgs[0] != ""
    ensures EmptyOnlyAtEnd(msgs) <==> EmptyOnlyAtEnd(msgs[1..])
  {
  }

  lemma SameHead(head: string, rest: seq<string>, all: seq<string>)
    requires |all| > 0 && all[0] == head
    ensures [head] + rest == all <==> rest == all[1..]
  {
    assert all == [head] + all[1..];
    assert ([head] + rest)[1..] == rest;
  }

  lemma {:induction false} RoundTripOf(read: string -> (string, string), frame: string -> string, msgs: seq<string>, tail: string)
    requires forall m, t :: m != "" ==> read(frame(m) + t) == (m, t)
    requires forall t :: read(frame("") + t) == ("", frame("") + t)
    ensures Reads(read, Framed(frame, msgs) + tail, |msgs|) == msgs <==> EmptyOnlyAtEnd(msgs)
  {
    if |msgs| > 0 {
      var ahead := Framed(frame, msgs[1..]) + tail;
      assert Framed(frame, msgs) + tail == frame(msgs[0]) + ahead;
      if msgs[0] == "" {
        ReadsAfterFailure(read, frame("") + ahead, |msgs|);
      } else {
        FirstRead(read, frame(msgs[0]) + ahead, msgs[0], ahead, |msgs|);
        RoundTripOf(read, frame, msgs[1..], tail);
        EmptyOnlyLater(msgs);
        SameHead(msgs[0], Reads(read, ahead, |msgs| - 1), msgs);
      }
    }
  }

  /* The reader and the writer */

  /** A byte source: a read gives at least one byte, and no more than asked,
      until the source is exhausted. How many is up to the source. */
  class Source {
    var remaining: string

    constructor (bytes: string)
      ensures remaining == bytes
    {
      remaining := bytes;
    }

    method Read(n: nat) returns (chunk: string)
      requires n > 0
      modifies this
      ensures |chunk| <= n && chunk + remaining == old(remaining)
      ensures chunk == "" <==> old(remaining) == ""
    {
      if |remaining| == 0 {
        return "";
      }
      var k: nat :| 1 <= k <= n && k <= |remaining|;
      chunk, remaining := remaining[..k], remaining[k..];
    }
  }

  class ContentReader {
    const reader: Source
    var buf: string
    var matchedIdx: nat

    constructor (reader: Source)
      ensures this.reader == reader && buf == ""
    {
      this.reader := reader;
      buf, matchedIdx := "", 0;
    }

    /** Everything that lies ahead, buffered or not. */
    ghost function Stream(): string
      reads this, reader
    {
      buf + reader.remaining
    }

    /** The next message, or "". The result and the rest depend only on the
        stream, and a successful read buffers no byte behind the message. */
    method Read() returns (out: string)
      modifies this, reader
      ensures (out, Stream()) == ReadStream(old(Stream()))
      ensures out != "" && |old(buf)| <= |old(Stream())| - |Stream()| ==> buf == ""
    {
      matchedIdx := 0;
      var found := ScanFor(TOKEN);
      if !found {
        return "";
      }
      SkipBlanks();
      var len := ParseLength();
      out := ReadContent(len);
    }

    /** Skip whitespace and tabs. */
    method SkipBlanks()
      requires matchedIdx <= |Stream()|
      modifies this, reader
      ensures Stream() == old(Stream())
      ensures matchedIdx == SkipRun(Stream(), old(matchedIdx), BLANKS)
      ensures |buf| <= Max(|old(buf)|, matchedIdx + 1)
    {
      ghost var r := Stream();
      var c := MatchAny(BLANKS);
      while c != '\0'
        invariant Stream() == r && old(matchedIdx) <= matchedIdx <= |r|
        invariant c != '\0' ==> RunEnd(r, old(matchedIdx), BLANKS) == RunEnd(r, matchedIdx, BLANKS)
        invariant c == '\0' ==> SkipRun(r, old(matchedIdx), BLANKS) == matchedIdx
        invariant |buf| <= Max(|old(buf)|, matchedIdx + 1)
        decreases |r| - matchedIdx, c != '\0'
      {
        c := MatchAny(BLANKS);
      }
    }

    /** Parse length. */
    method ParseLength() returns (len: nat)
      requires matchedIdx <= |Stream()|
      modifies this, reader
      ensures Stream() == old(Stream())
      ensures old(matchedIdx) <= RunEnd(Stream(), old(matchedIdx), DECIMALS) <= |Stream()|
      ensures len == Value(Stream()[old(matchedIdx)..RunEnd(Stream(), old(matchedIdx), DECIMALS)], 10)
      ensures matchedIdx == SkipRun(Stream(), old(matchedIdx), DECIMALS)
      ensures |buf| <= Max(|old(buf)|, matchedIdx + 1)
    {
      len := ParseDigits(DECIMALS);
    }

    method ParseDigits(chars: string) returns (len: nat)
      requires matchedIdx <= |Stream()| && '\0' !in chars
      modifies this, reader
      ensures Stream() == old(Stream())
      ensures old(matchedIdx) <= RunEnd(Stream(), old(matchedIdx), chars) <= |Stream()|
      ensures len == Value(Stream()[old(matchedIdx)..RunEnd(Stream(), old(matchedIdx), chars)], 10)
      ensures matchedIdx == SkipRun(Stream(), old(matchedIdx), chars)
      ensures |buf| <= Max(|old(buf)|, matchedIdx + 1)
    {
      ghost var r, start := Stream(), matchedIdx;
      len := 0;
      while true
        invariant Stream() == r && DigitsSoFar(r, start, matchedIdx, chars, len)
        invariant |buf| <= Max(|old(buf)|, matchedIdx + 1)
        decreases |r| - matchedIdx
      {
        DigitsEnd(r, start, matchedIdx, chars, len);
        ghost var i := matchedIdx;
        var c := MatchAny(chars);
        if c == '\0' {
          break;
        }
        OneMoreDigit(r, start, i, chars, len);
        len := len * 10;
        len := len + DigitValue(c);
      }
    }

    /** Expects the end of the header, and then the message. */
    method ReadContent(len: nat) returns (out: string)
      requires matchedIdx <= |Stream()|
      modifies this, reader
      ensures (out, Stream()) == TakeContent(old(Stream()), LengthField(len, old(matchedIdx)))
      ensures out != "" ==> |buf| == Max(|old(buf)| - (|old(Stream())| - |Stream()|), 0)
      ensures out != "" ==> |old(Stream())| - |Stream()| > old(matchedIdx) + 1
    {
      if len == 0 {
        return "";
      }
      var ended := Match(HEADER_END);
      if !ended {
        return "";
      }
      var complete := Buffer(len + matchedIdx);
      if !complete {
        return "";
      }
      ghost var s := Stream();
      ghost var start := matchedIdx;
      assert s[start..start + len] == buf[start..][..len];
      assert s[start + len..] == buf[start + len..] + reader.remaining;
      out := TakeMessage(len);
    }

    /** Read message: drop the header that was matched, and take len bytes. */
    method TakeMessage(len: nat) returns (out: string)
      requires matchedIdx + len <= |buf|
      modifies this
      ensures out == old(buf)[old(matchedIdx)..][..len] && buf == old(buf)[old(matchedIdx) + len..]
    {
      for k := 0 to matchedIdx
        invariant buf == old(buf)[k..] && matchedIdx == old(matchedIdx)
      {
        buf := buf[1..];
      }
      out := "";
      for k := 0 to len
        invariant buf == old(buf)[old(matchedIdx) + k..]
        invariant out == old(buf)[old(matchedIdx)..][..k]
      {
        out := out + [buf[0]];
        buf := buf[1..];
      }
    }

    /** Drops bytes until seq lies ahead; it is then matched. */
    method ScanFor(token: string) returns (found: bool)
      requires token != "" && matchedIdx == 0
      modifies this, reader
      ensures Stream() == Resync(old(Stream()), token)
      ensures found <==> |Stream()| >= |token|
      ensures found ==> matchedIdx == |token|
      ensures |buf| <= Max(|old(buf)| - (|old(Stream())| - |Stream()|), |token|)
    {
      ghost var s, had := Stream(), |buf|;
      var more := Buffer(|token|);
      while more
        invariant matchedIdx == 0 && Resync(Stream(), token) == Resync(s, token) && |Stream()| <= |s|
        invariant more <==> |Stream()| >= |token|
        invariant more ==> |buf| >= |token|
        invariant |buf| <= Max(had - (|s| - |Stream()|), |token|)
        decreases |Stream()|
      {
        found := Match(token);
        if found {
          return;
        }
        assert Stream()[1..] == buf[1..] + reader.remaining;
        buf := buf[1..];
        more := Buffer(|token|);
      }
      return false;
    }

    method Match(token: string) returns (ok: bool)
      modifies this, reader
      ensures Stream() == old(Stream())
      ensures ok <==> OccursAt(Stream(), token, old(matchedIdx))
      ensures matchedIdx == old(matchedIdx) + (if ok then |token| else 0)
      ensures |buf| <= Max(|old(buf)|, old(matchedIdx) + |token|)
      ensures |old(buf)| <= |buf|
    {
      var available := Buffer(|token| + matchedIdx);
      if !available {
        return false;
      }
      var it := matchedIdx;
      for i := 0 to |token|
        invariant it == matchedIdx + i && Stream() == old(Stream())
        invariant forall k | 0 <= k < i :: Stream()[matchedIdx + k] == token[k]
      {
        if buf[it] != token[i] {
          assert Stream()[matchedIdx..matchedIdx + |token|][i] == buf[it];
          return false;
        }
        it := it + 1;
      }
      assert Stream()[matchedIdx..matchedIdx + |token|] == token;
      matchedIdx := matchedIdx + |token|;
      return true;
    }

    /** The next byte if it is one of chars; a NUL is passed over but gives '\0'. */
    method MatchAny(chars: string) returns (c: char)
      requires '\0' !in chars
      modifies this, reader
      ensures Stream() == old(Stream())
      ensures c != '\0' <==> old(matchedIdx) < |Stream()| && Stream()[old(matchedIdx)] in chars
      ensures c != '\0' ==> c == Stream()[old(matchedIdx)]
      ensures matchedIdx == old(matchedIdx) +
        if old(matchedIdx) < |Stream()| && (Stream()[old(matchedIdx)] in chars || Stream()[old(matchedIdx)] == '\0') then 1 else 0
      ensures |buf| <= Max(|old(buf)|, old(matchedIdx) + 1)
    {
      var available := Buffer(1 + matchedIdx);
      if !available {
        return '\0';
      }
      var b := buf[matchedIdx];
      if b in chars || b == '\0' {
        matchedIdx := matchedIdx + 1;
        return b;
      }
      return '\0';
    }

    /** Fills the buffer up to the given size, in chunks of at most 256 bytes. */
    method Buffer(bytes: nat) returns (ok: bool)
      modifies this`buf, reader
      ensures Stream() == old(Stream())
      ensures ok <==> bytes <= |Stream()|
      ensures ok ==> |buf| == Max(|old(buf)|, bytes)
      ensures !ok ==> reader.remaining == ""
      ensures |old(buf)| <= |buf|
    {
      if bytes < |buf| {
        return true;
      }
      var missing := bytes - |buf|;
      while missing > 0
        invariant Stream() == old(Stream()) && missing == bytes - |buf| >= 0 && |old(buf)| <= |buf|
      {
        var numWant := Min(256, missing);
        var chunk := reader.Read(numWant);
        if |chunk| == 0 {
          return false;
        }
        for i := 0 to |chunk|
          invariant buf + chunk[i..] + reader.remaining == old(Stream())
          invariant |buf| == bytes - missing + i
        {
          buf := buf + [chunk[i]];
        }
        missing := missing - |chunk|;
      }
      return true;
    }
  }

  /** A byte sink whose writes may fail, and then add nothing but to the failures. */
  class Sink {
    var written: string
    var failures: nat

    constructor ()
      ensures written == "" && failures == 0
    {
      written, failures := "", 0;
    }

    method Write(bytes: string) returns (ok: bool)
      modifies this
      ensures written == old(written) + (if ok then bytes else "")
      ensures failures == old(failures) + (if ok then 0 else 1)
    {
      ok := *;
      if ok {
        written := written + bytes;
      } else {
        failures := failures + 1;
      }
    }
  }

  class ContentWriter {
    const writer: Sink

    constructor (writer: Sink)
      ensures this.writer == writer
    {
      this.writer := writer;
    }

    method Write(msg: string) returns (ok: bool)
      modifies writer
      ensures ok <==> writer.failures == old(writer.failures)
      ensures !ok ==> writer.failures == old(writer.failures) + 1
      ensures ok ==> writer.written == old(writer.written) + Frame(msg)
      ensures !ok ==> writer.written == old(writer.written) || writer.written == old(writer.written) + Header(|msg|)
    {
      var header := TOKEN + " " + Render(|msg|, 10) + HEADER_END;
      ok := writer.Write(header);
      if ok {
        ok := writer.Write(msg);
        assert ok ==> writer.written == old(writer.written) + Header(|msg|) + msg;
      }
    }
  }

  /* From end to end */

  lemma {:induction false} FramedAppend(frame: string -> string, msgs: seq<string>, i: nat)
    requires i < |msgs|
    ensures Framed(frame, msgs[..i + 1]) == Framed(frame, msgs[..i]) + frame(msgs[i])
    decreases i
  {
    var longer, shorter := msgs[..i + 1], msgs[..i];
    if i > 0 {
      FramedAppend(frame, msgs[1..], i - 1);
      assert longer[1..] == msgs[1..][..i] && shorter[1..] == msgs[1..][..i - 1];
    } else {
      assert longer[1..] == [] && shorter == [];
    }
  }

  lemma OneMoreFrame(before: string, msgs: seq<string>, i: nat)
    requires i < |msgs|
    ensures before + Frames(msgs[..i]) + Frame(msgs[i]) == before + Frames(msgs[..i + 1])
  {
    FramedAppend(Frame, msgs, i);
    Associates(before, Frames(msgs[..i]), Frame(msgs[i]));
  }

  lemma Associates(a: string, b: string, c: string)
    ensures a + b + c == a + (b + c)
  {
  }

  /** Writes messages one after the other, until one fails. */
  method WriteAll(writer: ContentWriter, msgs: seq<string>) returns (ok: bool)
    modifies writer.writer
    ensures ok <==> writer.writer.failures == old(writer.writer.failures)
    ensures ok ==> writer.writer.written == old(writer.writer.written) + Frames(msgs)
  {
    for i := 0 to |msgs|
      invariant writer.writer.failures == old(writer.writer.failures)
      invariant writer.writer.written == old(writer.writer.written) + Frames(msgs[..i])
    {
      var written := writer.Write(msgs[i]);
      if !written {
        return false;
      }
      OneMoreFrame(old(writer.writer.written), msgs, i);
    }
    assert msgs[..|msgs|] == msgs;
    return true;
  }

  /** Reads a number of times. */
  method ReadAll(reader: ContentReader, k: nat) returns (out: seq<string>)
    modifies reader, reader.reader
    ensures out == Reads(ReadStream, old(reader.Stream()), k)
  {
    out := [];
    for i := 0 to k
      invariant out + Reads(ReadStream, reader.Stream(), k - i) == Reads(ReadStream, old(reader.Stream()), k)
    {
      ghost var s := reader.Stream();
      var msg := reader.Read();
      FirstRead(ReadStream, s, msg, reader.Stream(), k - i);
      out := out + [msg];
    }
  }

  /** Messages are sent exactly if the sink takes every write. Whatever the source's
      short reads, they all come back then as they were, exactly if no message follows an
      empty one. */
  method SendAndReceive(sink: Sink, msgs: seq<string>) returns (sent: bool, out: seq<string>)
    requires sink.written == ""
    modifies sink
    ensures sent <==> sink.failures == old(sink.failures)
    ensures sent ==> (out == msgs <==> EmptyOnlyAtEnd(msgs))
  {
    var writer := new ContentWriter(sink);
    sent := WriteAll(writer, msgs);
    var source := new Source(sink.written);
    var reader := new ContentReader(source);
    assert sent ==> reader.Stream() == Frames(msgs) + "";
    RoundTripIff(msgs, "");
    out := ReadAll(reader, |msgs|);
  }
}
