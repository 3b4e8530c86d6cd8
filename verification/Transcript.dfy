/**
 Fiat-Shamir transcript framing. A byte is the character with its code. The bytes absorbed before a
 query are a printed form of the whole history; `Parse` reads them back, so the digest input
 determines constructor label, history, query kind and query label.
 */
module Transcript {
  import opened Common
  import opened LittleEndian

  type Bytes = string

  const WORD: nat := 0x1_0000_0000

  datatype Event =
    | Append(name: Bytes, message: Bytes)
    | ChallengeOutput(digest: Bytes)
    | ChallengeBytesOutput(digest: Bytes)

  datatype Query = Challenge(name: Bytes) | ChallengeBytes(name: Bytes)

  /** `(n as u32).to_le_bytes()`. */
  function Le32(n: nat): (r: Bytes)
    ensures |r| == 4
  {
    [(n % 256) as char, (n / 0x100 % 256) as char, (n / 0x1_0000 % 256) as char, (n / 0x100_0000 % 256) as char]
  }

  function Field(f: Bytes): Bytes {
    Le32(|f|) + f
  }

  function Start(name: Bytes): Bytes {
    "metavm-transcript" + Field(name)
  }

  function PrintEvent(e: Event): Bytes {
    match e
    case Append(name, message) => "append" + Field(name) + Field(message)
    case ChallengeOutput(digest) => "challenge-output" + digest
    case ChallengeBytesOutput(digest) => "challenge-bytes-output" + digest
  }

  function PrintHistory(h: seq<Event>): Bytes {
    if h == [] then "" else PrintEvent(h[0]) + PrintHistory(h[1..])
  }

  function PrintQuery(q: Query): Bytes {
    match q
    case Challenge(name) => "challenge" + Field(name)
    case ChallengeBytes(name) => "challenge-bytes" + Field(name)
  }

  /** Everything the hash has absorbed when the query's digest is taken. */
  function Print(name: Bytes, h: seq<Event>, q: Query): Bytes {
    Start(name) + PrintHistory(h) + PrintQuery(q)
  }

  // ---------------------------------------------------------------- the object

  const ORDER: nat := 0x1000_0000_0000_0000_0000_0000_0000_0000_14de_f9de_a2f7_9cd6_5812_631a_5cf5_d3ed

  function LeValue(bytes: Bytes): nat {
    if bytes == "" then 0 else bytes[0] as int + 256 * LeValue(bytes[1..])
  }

  lemma {:induction false} LeValueByte(bytes: Bytes, i: nat)
    requires i < |bytes| && forall k :: 0 <= k < |bytes| ==> bytes[k] as int < 256
    ensures ByteAt(LeValue(bytes), i) == bytes[i] as int
  {
    hide ByteAt;
    BytePrepended(bytes[0] as int, LeValue(bytes[1..]), if i == 0 then 0 else i - 1);
    if i > 0 {
      LeValueByte(bytes[1..], i - 1);
    }
  }

  lemma {:induction false} LeValueBound(bytes: Bytes)
    requires forall k :: 0 <= k < |bytes| ==> bytes[k] as int < 256
    ensures LeValue(bytes) < Two(8 * |bytes|)
  {
    if bytes != "" {
      LeValueBound(bytes[1..]);
      TwoSum(8, 8 * |bytes[1..]|);
      assert Two(8) == 256 by {
        assert Two(4) == 16;
      }
    }
  }

  /**
   The number a 32-byte digest stands for has the digest's bytes, the first one least significant,
   and the order of the scalar field (RFC 8032, section 5.1) is 2^252 + 27742317777372353535851937790883648493.
   */
  lemma ChallengeScalar(digest: Bytes)
    requires |digest| == 32 && forall k :: 0 <= k < 32 ==> digest[k] as int < 256
    ensures forall i :: 0 <= i < 32 ==> ByteAt(LeValue(digest), i) == digest[i] as int
    ensures LeValue(digest) < Two(256)
    ensures ORDER == Two(252) + 27742317777372353535851937790883648493
  {
    hide LeValue, ByteAt, Two;
    forall i | 0 <= i < 32 ensures ByteAt(LeValue(digest), i) == digest[i] as int {
      LeValueByte(digest, i);
    }
    LeValueBound(digest);
    OrderIs();
  }

  lemma TwoSeven()
    ensures Two(7) == 128
  {
    assert Two(3) == 8;
  }

  lemma OrderIs()
    ensures ORDER == Two(252) + 27742317777372353535851937790883648493
  {
    hide Two;
    TwoSeven();
    TwoSum(7, 7);
    TwoSum(14, 14);
    TwoSum(28, 28);
    TwoSum(56, 7);
    TwoSum(63, 63);
    TwoSum(126, 126);
  }

  lemma {:induction false} PrintHistoryAppend(h: seq<Event>, e: Event)
    ensures PrintHistory(h + [e]) == PrintHistory(h) + PrintEvent(e)
  {
    hide PrintEvent;
    if h == [] {
      assert h + [e] == [e] && [e][1..] == [];
    } else {
      assert (h + [e])[1..] == h[1..] + [e];
      PrintHistoryAppend(h[1..], e);
    }
  }

  class TranscriptState {
    var absorbed: Bytes
    const hash: Bytes -> Bytes
    ghost var name: Bytes
    ghost var history: seq<Event>

    /** The absorbed bytes print the history; digests have 32 bytes. */
    ghost predicate Valid()
      reads this
    {
      absorbed == Start(name) + PrintHistory(history) && forall s: Bytes :: |hash(s)| == 32
    }

    constructor (name: Bytes, hash: Bytes -> Bytes)
      requires forall s: Bytes :: |hash(s)| == 32
      ensures Valid() && this.name == name && history == [] && this.hash == hash
    {
      this.hash := hash;
      absorbed := "metavm-transcript" + Le32(|name|) + name;
      this.name, history := name, [];
    }

    method AppendMessage(name: Bytes, message: Bytes)
      requires Valid()
      modifies this
      ensures Valid() && this.name == old(this.name)
      ensures history == old(history) + [Append(name, message)]
    {
      hide Le32, PrintHistory, Start;
      PrintHistoryAppend(history, Append(name, message));
      AppendGroups(Start(this.name), PrintHistory(history), Le32(|name|), name, Le32(|message|), message);
      absorbed := absorbed + "append";
      absorbed := absorbed + Le32(|name|);
      absorbed := absorbed + name;
      absorbed := absorbed + Le32(|message|);
      absorbed := absorbed + message;
      history := history + [Append(name, message)];
    }

    /** The digest of a fork that also absorbs the query; only the digest is fed back. */
    method DrawChallenge(name: Bytes) returns (c: nat)
      requires Valid()
      modifies this
      ensures Valid() && this.name == old(this.name)
      ensures var digest := hash(Print(this.name, old(history), Challenge(name)));
        c == LeValue(digest) % ORDER && history == old(history) + [ChallengeOutput(digest)]
    {
      hide Le32, PrintHistory, Start;
      var fork := absorbed + "challenge";
      fork := fork + Le32(|name|);
      fork := fork + name;
      ForkGroups(absorbed, "challenge", Le32(|name|), name);
      var digest := hash(fork);
      PrintHistoryAppend(history, ChallengeOutput(digest));
      OutputGroups(Start(this.name), PrintHistory(history), "challenge-output", digest);
      absorbed := absorbed + "challenge-output";
      absorbed := absorbed + digest;
      history := history + [ChallengeOutput(digest)];
      c := LeValue(digest) % ORDER;
    }

    method DrawChallengeBytes(name: Bytes) returns (digest: Bytes)
      requires Valid()
      modifies this
      ensures Valid() && this.name == old(this.name)
      ensures digest == hash(Print(this.name, old(history), ChallengeBytes(name)))
      ensures history == old(history) + [ChallengeBytesOutput(digest)]
    {
      hide Le32, PrintHistory, Start;
      var fork := absorbed + "challenge-bytes";
      fork := fork + Le32(|name|);
      fork := fork + name;
      ForkGroups(absorbed, "challenge-bytes", Le32(|name|), name);
      digest := hash(fork);
      PrintHistoryAppend(history, ChallengeBytesOutput(digest));
      OutputGroups(Start(this.name), PrintHistory(history), "challenge-bytes-output", digest);
      absorbed := absorbed + "challenge-bytes-output";
      absorbed := absorbed + digest;
      history := history + [ChallengeBytesOutput(digest)];
    }
  }

  lemma AppendGroups(s: Bytes, h: Bytes, n: Bytes, name: Bytes, m: Bytes, message: Bytes)
    ensures s + h + "append" + n + name + m + message == s + (h + ("append" + (n + name) + (m + message)))
  {}

  lemma ForkGroups(a: Bytes, tag: Bytes, n: Bytes, name: Bytes)
    ensures a + tag + n + name == a + (tag + (n + name))
  {}

  lemma OutputGroups(s: Bytes, h: Bytes, tag: Bytes, digest: Bytes)
    ensures s + h + tag + digest == s + (h + (tag + digest))
  {}

  // ---------------------------------------------------------------- what can be framed

  predicate EventFits(e: Event) {
    match e
    case Append(name, message) => |name| < WORD && |message| < WORD
    case ChallengeOutput(digest) => |digest| == 32
    case ChallengeBytesOutput(digest) => |digest| == 32
  }

  predicate HistoryFits(h: seq<Event>) {
    forall i :: 0 <= i < |h| ==> EventFits(h[i])
  }

  /** "-out" and "-byt" read as little-endian lengths. */
  const DASH_OUT: nat := 0x7475_6F2D
  const DASH_BYT: nat := 0x7479_622D

  /** The label lengths whose frame looks like the rest of a longer tag. */
  predicate Ambiguous(q: Query) {
    |q.name| == DASH_OUT || (q.Challenge? && |q.name| == DASH_BYT)
  }

  predicate QueryFits(q: Query) {
    |q.name| < WORD && !Ambiguous(q)
  }

  predicate Fits(name: Bytes, h: seq<Event>, q: Query) {
    |name| < WORD && HistoryFits(h) && QueryFits(q)
  }

  /** What each event adds to the bytes absorbed, tags and frames in full. */
  lemma PrintedEvents(h: seq<Event>, topic: Bytes, message: Bytes, digest: Bytes)
    ensures PrintHistory([]) == ""
    ensures PrintHistory(h + [Append(topic, message)]) ==
      PrintHistory(h) + ("append" + Le32(|topic|) + topic + Le32(|message|) + message)
    ensures PrintHistory(h + [ChallengeOutput(digest)]) == PrintHistory(h) + ("challenge-output" + digest)
    ensures PrintHistory(h + [ChallengeBytesOutput(digest)]) == PrintHistory(h) + ("challenge-bytes-output" + digest)
  {
    hide Le32, PrintHistory;
    assert PrintHistory([]) == "" by { NothingPrinted(); }
    AppendGroups("", "", Le32(|topic|), topic, Le32(|message|), message);
    PrintHistoryAppend(h, Append(topic, message));
    PrintHistoryAppend(h, ChallengeOutput(digest));
    PrintHistoryAppend(h, ChallengeBytesOutput(digest));
  }

  lemma NothingPrinted()
    ensures PrintHistory([]) == ""
  {}

  /** What precedes and follows a history when either query is drawn. */
  lemma PrintedQueries(name: Bytes, h: seq<Event>, query: Bytes)
    ensures Print(name, h, Challenge(query)) ==
      "metavm-transcript" + Le32(|name|) + name + PrintHistory(h) + "challenge" + Le32(|query|) + query
    ensures Print(name, h, ChallengeBytes(query)) ==
      "metavm-transcript" + Le32(|name|) + name + PrintHistory(h) + "challenge-bytes" + Le32(|query|) + query
  {
    hide Le32, PrintHistory;
    QueryGroups("metavm-transcript", Le32(|name|), name, PrintHistory(h), "challenge", Le32(|query|), query);
    QueryGroups("metavm-transcript", Le32(|name|), name, PrintHistory(h), "challenge-bytes", Le32(|query|), query);
  }

  lemma QueryGroups(start: Bytes, n: Bytes, name: Bytes, h: Bytes, tag: Bytes, m: Bytes, query: Bytes)
    ensures start + n + name + h + tag + m + query == start + (n + name) + h + (tag + (m + query))
  {
    assert start + (n + name) == start + n + name;
    ForkGroups(start + n + name + h, tag, m, query);
  }

  // ---------------------------------------------------------------- the parser

  function FromLe32(b: Bytes): nat
    requires |b| == 4
  {
    b[0] as int + 0x100 * (b[1] as int) + 0x1_0000 * (b[2] as int) + 0x100_0000 * (b[3] as int)
  }

  function ParseField(s: Bytes): (r: Option<(Bytes, Bytes)>)
    ensures r.Some? ==> |r.value.1| < |s|
  {
    if |s| < 4 || |s| - 4 < FromLe32(s[..4]) then None else
    Some((s[4..4 + FromLe32(s[..4])], s[4 + FromLe32(s[..4])..]))
  }

  function ParseQuery(s: Bytes): Option<Query> {
    if "challenge-bytes" <= s then
      match ParseField(s[15..])
      case Some((name, "")) => Some(ChallengeBytes(name))
      case _ => None
    else if "challenge" <= s then
      match ParseField(s[9..])
      case Some((name, "")) => Some(Challenge(name))
      case _ => None
    else None
  }

  function ParseTail(s: Bytes): Option<(seq<Event>, Query)>
    decreases |s|
  {
    if "append" <= s then
      match ParseField(s[6..])
      case None => None
      case Some((name, r)) =>
        (match ParseField(r)
         case None => None
         case Some((message, t)) => Cons(Append(name, message), ParseTail(t)))
    else if "challenge-output" <= s && |s| >= 48 then
      Cons(ChallengeOutput(s[16..48]), ParseTail(s[48..]))
    else if "challenge-bytes-output" <= s && |s| >= 54 then
      Cons(ChallengeBytesOutput(s[22..54]), ParseTail(s[54..]))
    else
      match ParseQuery(s)
      case None => None
      case Some(q) => Some(([], q))
  }

  function Cons(e: Event, r: Option<(seq<Event>, Query)>): Option<(seq<Event>, Query)> {
    match r
    case None => None
    case Some((h, q)) => Some(([e] + h, q))
  }

  function Parse(s: Bytes): Option<(Bytes, seq<Event>, Query)> {
    if !("metavm-transcript" <= s) then None else
    match ParseField(s[17..])
    case None => None
    case Some((name, r)) =>
      match ParseTail(r)
      case None => None
      case Some((h, q)) => Some((name, h, q))
  }

  // ---------------------------------------------------------------- round trip

  lemma Le32RoundTrip(n: nat)
    requires n < WORD
    ensures FromLe32(Le32(n)) == n
  {
    var (a, b, c) := (n / 0x100, n / 0x1_0000, n / 0x100_0000);
    assert n == n % 256 + 0x100 * a;
    assert a == a % 256 + 0x100 * b;
    assert b == b % 256 + 0x100 * (c % 256);
  }

  lemma FieldRoundTrip(f: Bytes, rest: Bytes)
    requires |f| < WORD
    ensures ParseField(Field(f) + rest) == Some((f, rest))
  {
    var s := Field(f) + rest;
    Le32RoundTrip(|f|);
    assert s[..4] == Le32(|f|);
    assert s[4..4 + |f|] == f && s[4 + |f|..] == rest;
  }

  /** A mismatch at one place rules a prefix out. */
  lemma NotPrefix(t: Bytes, s: Bytes, i: nat)
    requires i < |t| && (i >= |s| || s[i] != t[i])
    ensures !(t <= s)
  {}

  lemma AppendParses(name: Bytes, message: Bytes, rest: Bytes)
    requires |name| < WORD && |message| < WORD
    ensures ParseTail(PrintEvent(Append(name, message)) + rest) == Cons(Append(name, message), ParseTail(rest))
  {
    var s := PrintEvent(Append(name, message)) + rest;
    assert s == "append" + (Field(name) + (Field(message) + rest));
    assert s[6..] == Field(name) + (Field(message) + rest);
    FieldRoundTrip(name, Field(message) + rest);
    FieldRoundTrip(message, rest);
  }

  lemma OutputParses(digest: Bytes, rest: Bytes)
    requires |digest| == 32
    ensures ParseTail(PrintEvent(ChallengeOutput(digest)) + rest) == Cons(ChallengeOutput(digest), ParseTail(rest))
  {
    var s := PrintEvent(ChallengeOutput(digest)) + rest;
    assert s == "challenge-output" + (digest + rest);
    assert s[0] == 'c';
    NotPrefix("append", s, 0);
    assert s[16..48] == digest && s[48..] == rest;
  }

  lemma BytesOutputParses(digest: Bytes, rest: Bytes)
    requires |digest| == 32
    ensures ParseTail(PrintEvent(ChallengeBytesOutput(digest)) + rest) == Cons(ChallengeBytesOutput(digest), ParseTail(rest))
  {
    var s := PrintEvent(ChallengeBytesOutput(digest)) + rest;
    assert s == "challenge-bytes-output" + (digest + rest);
    assert s[0] == 'c' && s[10] == 'b';
    NotPrefix("append", s, 0);
    NotPrefix("challenge-output", s, 10);
    assert s[22..54] == digest && s[54..] == rest;
  }

  lemma LengthSpells(n: nat)
    requires n < WORD
    ensures Le32(n) == "-out" <==> n == DASH_OUT
    ensures Le32(n) == "-byt" <==> n == DASH_BYT
  {
    Le32RoundTrip(n);
    assert Le32(DASH_OUT) == "-out" && Le32(DASH_BYT) == "-byt";
  }

  lemma QueryParses(q: Query)
    requires QueryFits(q)
    ensures ParseTail(PrintQuery(q)) == Some(([], q))
  {
    var s, n := PrintQuery(q), |q.name|;
    LengthSpells(n);
    assert s[0] == 'c';
    NotPrefix("append", s, 0);
    FieldRoundTrip(q.name, "");
    assert Field(q.name) + "" == Field(q.name);
    match q {
      case Challenge(name) =>
        assert s[9..] == Field(name) && s[9..][..4] == Le32(n);
        assert !("challenge-output" <= s) by { TagNeedsLength("challenge-output", s, 9, "-out"); }
        assert !("challenge-bytes-output" <= s) by { TagNeedsLength("challenge-bytes-output", s, 9, "-byt"); }
        assert !("challenge-bytes" <= s) by { TagNeedsLength("challenge-bytes", s, 9, "-byt"); }
      case ChallengeBytes(name) =>
        assert s[15..] == Field(name) && s[15..][..4] == Le32(n);
        assert s[10] == 'b';
        NotPrefix("challenge-output", s, 10);
        assert !("challenge-bytes-output" <= s) by { TagNeedsLength("challenge-bytes-output", s, 15, "-out"); }
    }
  }

  /** A tag that continues past place k fixes the four bytes there. */
  lemma TagNeedsLength(tag: Bytes, s: Bytes, k: nat, four: Bytes)
    requires |tag| >= k + 4 && |s| >= k + 4 && tag[k..][..4] == four
    ensures tag <= s ==> s[k..][..4] == four
  {
    if tag <= s {
      forall i | 0 <= i < 4 ensures s[k..][..4][i] == tag[k..][..4][i] {
        assert s[k + i] == tag[k + i];
      }
    }
  }

  lemma {:induction false} TailRoundTrip(h: seq<Event>, q: Query)
    requires HistoryFits(h) && QueryFits(q)
    ensures ParseTail(PrintHistory(h) + PrintQuery(q)) == Some((h, q))
    decreases h
  {
    hide ParseTail, PrintQuery, PrintEvent, QueryFits;
    if h == [] {
      QueryParses(q);
      assert PrintHistory(h) + PrintQuery(q) == PrintQuery(q);
    } else {
      var rest := PrintHistory(h[1..]) + PrintQuery(q);
      assert PrintHistory(h) + PrintQuery(q) == PrintEvent(h[0]) + rest;
      TailRoundTrip(h[1..], q);
      assert EventFits(h[0]);
      match h[0] {
        case Append(name, message) => AppendParses(name, message, rest);
        case ChallengeOutput(digest) => OutputParses(digest, rest);
        case ChallengeBytesOutput(digest) => BytesOutputParses(digest, rest);
      }
      assert [h[0]] + h[1..] == h;
    }
  }

  /** Parsing what was absorbed gives back the label, the history and the query. */
  lemma RoundTrip(name: Bytes, h: seq<Event>, q: Query)
    requires Fits(name, h, q)
    ensures Parse(Print(name, h, q)) == Some((name, h, q))
  {
    hide ParseTail, PrintQuery, PrintHistory, Field, ParseField;
    var rest := PrintHistory(h) + PrintQuery(q);
    var s := Print(name, h, q);
    assert s == "metavm-transcript" + (Field(name) + rest);
    assert s[17..] == Field(name) + rest;
    FieldRoundTrip(name, rest);
    TailRoundTrip(h, q);
  }

  /** Equal hash inputs come from equal transcripts and equal queries. */
  lemma FramingInjective(name: Bytes, h: seq<Event>, q: Query, name': Bytes, h': seq<Event>, q': Query)
    requires Fits(name, h, q) && Fits(name', h', q') && Print(name, h, q) == Print(name', h', q')
    ensures name == name' && h == h' && q == q'
  {
    RoundTrip(name, h, q);
    RoundTrip(name', h', q');
  }

  // ---------------------------------------------------------------- the excluded lengths really collide

  function Filler(n: nat): (r: Bytes)
    ensures |r| == n
  {
    seq(n, i => 'x')
  }

  /** Another query, after at most one more event, with the same bytes as the query q. */
  predicate Collides(q: Query, h: seq<Event>, q': Query) {
    HistoryFits(h) && QueryFits(q') && (h != [] || q != q') && PrintQuery(q) == PrintHistory(h) + PrintQuery(q')
  }

  lemma BytCollision() returns (q: Query, q': Query)
    ensures q.Challenge? && |q.name| == DASH_BYT && Collides(q, [], q')
  {
    var l := Filler(DASH_BYT - 6);
    q, q' := Challenge("es" + Field(l)), ChallengeBytes(l);
    LengthSpells(DASH_BYT);
    calc {
      PrintQuery(q);
      "challenge" + ("-byt" + ("es" + Field(l)));
      { assert "challenge" + ("-byt" + ("es" + Field(l))) == ("challenge" + "-byt" + "es") + Field(l);
        assert "challenge" + "-byt" + "es" == "challenge-bytes"; }
      PrintQuery(q');
      { assert PrintHistory([]) + PrintQuery(q') == PrintQuery(q'); }
      PrintHistory([]) + PrintQuery(q');
    }
  }

  /** A length that reads "-out" turns tag and label into an output event and a further query. */
  lemma OutGroups(tag: Bytes, out: Bytes, d: Bytes, rest: Bytes)
    requires tag + "-out" + "put" == out
    ensures tag + ("-out" + ("put" + d + rest)) == out + d + rest
  {
    assert tag + ("-out" + ("put" + d + rest)) == tag + "-out" + "put" + d + rest;
  }

  lemma HistoryOfOne(e: Event)
    ensures PrintHistory([e]) == PrintEvent(e)
  {
    assert [e][1..] == [];
    assert PrintEvent(e) + "" == PrintEvent(e);
  }

  lemma OutCollision() returns (q: Query, h: seq<Event>, q': Query)
    ensures q.Challenge? && |q.name| == DASH_OUT && |q'.name| < DASH_OUT && Collides(q, h, q')
  {
    var d, l := Filler(32), Filler(DASH_OUT - 48);
    q' := Challenge(l);
    q, h := Challenge("put" + d + PrintQuery(q')), [ChallengeOutput(d)];
    LengthSpells(DASH_OUT);
    HistoryOfOne(h[0]);
    hide PrintHistory;
    OutGroups("challenge", "challenge-output", d, PrintQuery(q'));
  }

  lemma BytesOutCollision() returns (q: Query, h: seq<Event>, q': Query)
    ensures q.ChallengeBytes? && |q.name| == DASH_OUT && Collides(q, h, q')
  {
    var d, l := Filler(32), Filler(DASH_OUT - 48);
    q' := Challenge(l);
    q, h := ChallengeBytes("put" + d + PrintQuery(q')), [ChallengeBytesOutput(d)];
    LengthSpells(DASH_OUT);
    HistoryOfOne(h[0]);
    hide PrintHistory;
    OutGroups("challenge-bytes", "challenge-bytes-output", d, PrintQuery(q'));
  }

  /** No query of this kind and label length shares its bytes with a framed transcript and query. */
  ghost predicate NeverCollides(bytesKind: bool, n: nat) {
    forall q: Query, h, q' :: q.ChallengeBytes? == bytesKind && |q.name| == n ==> !Collides(q, h, q')
  }

  /**
   Against transcripts whose own query label avoids the excluded lengths, a query label length is
   unambiguous exactly when it avoids them too.
   */
  lemma AmbiguousIff(bytesKind: bool, n: nat)
    requires n < WORD
    ensures NeverCollides(bytesKind, n) <==> !(n == DASH_OUT || (!bytesKind && n == DASH_BYT))
  {
    if n == DASH_OUT && bytesKind {
      var q, h, q' := BytesOutCollision();
    } else if n == DASH_OUT {
      var q, h, q' := OutCollision();
    } else if n == DASH_BYT && !bytesKind {
      var q, q' := BytCollision();
    } else {
      forall q: Query, h, q' | q.ChallengeBytes? == bytesKind && |q.name| == n
        ensures !Collides(q, h, q')
      {
        if Collides(q, h, q') {
          assert PrintHistory([]) + PrintQuery(q) == PrintQuery(q);
          TailRoundTrip([], q);
          TailRoundTrip(h, q');
        }
      }
    }
  }

  // ---------------------------------------------------------------- a bound on query labels

  /** A transcript of 32-bit lengths whose query label is shorter than `bound`. */
  predicate Bounded(name: Bytes, h: seq<Event>, q: Query, bound: nat) {
    |name| < WORD && HistoryFits(h) && |q.name| < bound
  }

  /** Among transcripts with query labels shorter than `bound`, the hashed bytes determine everything. */
  ghost predicate InjectiveBelow(bound: nat) {
    forall name, h, q, name', h', q' ::
      (Bounded(name, h, q, bound) && Bounded(name', h', q', bound) && Print(name, h, q) == Print(name', h', q')
      ==> name == name' && h == h' && q == q')
  }

  /** A policy that bounds query labels makes framing injective exactly when the bound is at most 0x74756F2D. */
  lemma LabelBoundExact(bound: nat)
    requires bound <= WORD
    ensures InjectiveBelow(bound) <==> bound <= DASH_OUT
  {
    hide Print, PrintQuery, PrintHistory;
    if bound <= DASH_OUT {
      forall name, h, q, name', h', q' | Bounded(name, h, q, bound) && Bounded(name', h', q', bound)
        && Print(name, h, q) == Print(name', h', q')
        ensures name == name' && h == h' && q == q'
      {
        FramingInjective(name, h, q, name', h', q');
      }
    } else {
      var q, h, q' := OutCollision();
      PrintedAlike(q, h, q');
      assert Bounded("", [], q, bound) && Bounded("", h, q', bound);
    }
  }

  lemma PrintedAlike(q: Query, h: seq<Event>, q': Query)
    requires PrintQuery(q) == PrintHistory(h) + PrintQuery(q')
    ensures Print("", [], q) == Print("", h, q')
  {
    assert PrintHistory([]) == "";
    hide Start, PrintQuery, PrintHistory;
    Regroup(Start(""), PrintHistory(h), PrintQuery(q'));
    assert Start("") + "" == Start("");
  }

  lemma Regroup(a: Bytes, b: Bytes, c: Bytes)
    ensures a + (b + c) == a + b + c
  {}
}
