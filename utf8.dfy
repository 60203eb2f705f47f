/** The byte-to-string step of the log widget's update: the stdout bytes of the
    command are cut into chunks the way Rust's `<[u8]>::utf8_chunks` does, the
    valid part of every chunk is kept, empty parts are dropped and the rest is
    joined. Well-formedness is the UTF-8 syntax of section 4 of RFC 3629. */
module Utf8 {

  type Byte = b: int | 0 <= b < 0x100

  /** A string as Rust stores it: bytes that are well-formed UTF-8. */
  type Utf8String = s: seq<Byte> | WellFormed(s) witness []

  /** UTF8-tail of RFC 3629 (a continuation byte). */
  predicate IsTail(b: Byte) {
    0x80 <= b <= 0xBF
  }

  /** RFC 3629, section 4: `c` is exactly one UTF8-char (UTF8-1, UTF8-2, UTF8-3 or UTF8-4). */
  predicate EncodesChar(c: seq<Byte>) {
    if |c| == 1 then
      c[0] <= 0x7F
    else if |c| == 2 then
      0xC2 <= c[0] <= 0xDF && IsTail(c[1])
    else if |c| == 3 then
      ((c[0] == 0xE0 && 0xA0 <= c[1] <= 0xBF) ||
       (0xE1 <= c[0] <= 0xEC && IsTail(c[1])) ||
       (c[0] == 0xED && 0x80 <= c[1] <= 0x9F) ||
       (0xEE <= c[0] <= 0xEF && IsTail(c[1]))) &&
      IsTail(c[2])
    else if |c| == 4 then
      ((c[0] == 0xF0 && 0x90 <= c[1] <= 0xBF) ||
       (0xF1 <= c[0] <= 0xF3 && IsTail(c[1])) ||
       (c[0] == 0xF4 && 0x80 <= c[1] <= 0x8F)) &&
      IsTail(c[2]) && IsTail(c[3])
    else
      false
  }

  /** RFC 3629, section 4: UTF8-octets = *( UTF8-char ), i.e. `s` splits into characters. */
  predicate WellFormed(s: seq<Byte>)
    decreases |s|
  {
    s == [] ||
    (|s| >= 1 && EncodesChar(s[..1]) && WellFormed(s[1..])) ||
    (|s| >= 2 && EncodesChar(s[..2]) && WellFormed(s[2..])) ||
    (|s| >= 3 && EncodesChar(s[..3]) && WellFormed(s[3..])) ||
    (|s| >= 4 && EncodesChar(s[..4]) && WellFormed(s[4..]))
  }

  /** The width the standard library assigns to a lead byte (0 for bytes that cannot lead). */
  function CharWidth(lead: Byte): nat {
    if lead <= 0x7F then 1
    else if lead < 0xC2 then 0
    else if lead <= 0xDF then 2
    else if lead <= 0xEF then 3
    else if lead <= 0xF4 then 4
    else 0
  }

  /** The range the standard library accepts for the byte after a multi-byte lead. */
  predicate SecondByteOk(lead: Byte, b: Byte) {
    if lead == 0xE0 then 0xA0 <= b <= 0xBF
    else if lead == 0xED then 0x80 <= b <= 0x9F
    else if lead == 0xF0 then 0x90 <= b <= 0xBF
    else if lead == 0xF4 then 0x80 <= b <= 0x8F
    else IsTail(b)
  }

  /** What one character-step of the chunk scan finds at the head of the input:
      a whole character of `len` bytes, or an ill-formed subpart of `len` bytes
      (the lead byte and the continuation bytes accepted before the scan stopped). */
  datatype Step = Char(len: nat) | Bad(len: nat)

  /** One step of the standard library's scan, byte by byte as it checks them. An
      ill-formed subpart is at most three bytes; NextStepMatchesGrammar relates the
      step to RFC 3629. */
  function NextStep(s: seq<Byte>): (r: Step)
    requires s != []
    ensures 1 <= r.len <= 4 && r.len <= |s|
    ensures r.Bad? ==> r.len <= 3
  {
    var lead := s[0];
    var w := CharWidth(lead);
    if w == 1 then Char(1)
    else if w == 0 then Bad(1)
    else if !(|s| > 1 && SecondByteOk(lead, s[1])) then Bad(1)
    else if w == 2 then Char(2)
    else if !(|s| > 2 && IsTail(s[2])) then Bad(2)
    else if w == 3 then Char(3)
    else if !(|s| > 3 && IsTail(s[3])) then Bad(3)
    else Char(4)
  }

  /** Both directions: a prefix of `s` is a UTF8-char exactly when the scan reports that
      prefix as a character; and every byte after the first of an ill-formed subpart is
      a continuation byte. */
  lemma NextStepMatchesGrammar(s: seq<Byte>)
    requires s != []
    ensures forall k :: 1 <= k <= |s| ==> (EncodesChar(s[..k]) <==> NextStep(s).Char? && k == NextStep(s).len)
    ensures NextStep(s).Bad? ==> forall j :: 1 <= j < NextStep(s).len ==> IsTail(s[j])
  {
    assert forall k :: 1 <= k <= |s| ==> s[..k][0] == s[0];
  }

  /** Lossy decoding as a greedy scan: keep a whole character and move past it,
      or drop one byte. */
  function Lossy(s: seq<Byte>): (r: seq<Byte>)
    ensures |r| <= |s|
    decreases |s|
  {
    if s == [] then []
    else match NextStep(s)
      case Char(n) => s[..n] + Lossy(s[n..])
      case Bad(_) => Lossy(s[1..])
  }

  /** `a` is an in-order subsequence of `b`. */
  predicate IsSubsequence(a: seq<Byte>, b: seq<Byte>)
    decreases |b|
  {
    a == [] ||
    (b != [] && ((a[0] == b[0] && IsSubsequence(a[1..], b[1..])) || IsSubsequence(a, b[1..])))
  }

  // ---------------------------------------------------------------------------
  // The standard library's chunking and the map/filter/join pipeline.

  /** One item of `utf8_chunks`: a run of whole characters, then the ill-formed
      bytes that stopped it (empty for the last chunk when the input ends well). */
  datatype Chunk = Chunk(valid: seq<Byte>, invalid: seq<Byte>)

  /** Length of the longest prefix of `s` made of whole characters, as the scan finds it. */
  function ValidPrefix(s: seq<Byte>): (n: nat)
    ensures n <= |s|
    decreases |s|
  {
    if s == [] then 0
    else match NextStep(s)
      case Char(k) => k + ValidPrefix(s[k..])
      case Bad(_) => 0
  }

  /** `<[u8]>::utf8_chunks`: each chunk is a maximal well-formed run followed by the
      ill-formed subpart that ends it. */
  function Chunks(s: seq<Byte>): (cs: seq<Chunk>)
    decreases |s|
  {
    if s == [] then []
    else
      var v := ValidPrefix(s);
      var w := SubpartLen(s);
      [Chunk(s[..v], s[v..v + w])] + Chunks(s[v + w..])
  }

  /** Length of the ill-formed subpart that ends the first chunk (0 if the input is
      well-formed to its end). */
  function SubpartLen(s: seq<Byte>): (w: nat)
    ensures ValidPrefix(s) + w <= |s|
    ensures s != [] ==> ValidPrefix(s) + w > 0
  {
    var v := ValidPrefix(s);
    if v == |s| then 0 else NextStep(s[v..]).len
  }

  /** `.map(|c| c.valid())` */
  function ValidParts(cs: seq<Chunk>): (ps: seq<seq<Byte>>)
    ensures |ps| == |cs|
    ensures forall i :: 0 <= i < |cs| ==> ps[i] == cs[i].valid
  {
    if cs == [] then [] else [cs[0].valid] + ValidParts(cs[1..])
  }

  /** `.filter(|c| !c.is_empty())` */
  function NonEmptyParts(ps: seq<seq<Byte>>): (qs: seq<seq<Byte>>)
    ensures forall i :: 0 <= i < |qs| ==> qs[i] != []
  {
    if ps == [] then []
    else if ps[0] == [] then NonEmptyParts(ps[1..])
    else [ps[0]] + NonEmptyParts(ps[1..])
  }

  /** `.collect::<Vec<_>>().join("")` */
  function Join(ps: seq<seq<Byte>>): seq<Byte> {
    if ps == [] then [] else ps[0] + Join(ps[1..])
  }

  /** All bytes of a chunk sequence, the valid and the invalid parts in order. */
  function Flatten(cs: seq<Chunk>): seq<Byte> {
    if cs == [] then [] else cs[0].valid + cs[0].invalid + Flatten(cs[1..])
  }

  /** The decoding pipeline of the log widget's update, as written. */
  function DecodeStdout(stdout: seq<Byte>): seq<Byte> {
    Join(NonEmptyParts(ValidParts(Chunks(stdout))))
  }

  // ---------------------------------------------------------------------------
  // Lemmas about well-formedness and the greedy decoder.

  /** A well-formed non-empty input starts with the character the scan finds, and
      the rest after it is well-formed. */
  lemma WellFormedHead(s: seq<Byte>)
    requires s != [] && WellFormed(s)
    ensures NextStep(s).Char? && WellFormed(s[NextStep(s).len..])
  {
    NextStepMatchesGrammar(s);
  }

  /** A character followed by well-formed bytes is well-formed. */
  lemma WellFormedPrepend(c: seq<Byte>, t: seq<Byte>)
    requires EncodesChar(c) && WellFormed(t)
    ensures WellFormed(c + t)
  {
    var s := c + t;
    assert s[..|c|] == c && s[|c|..] == t;
  }

  /** Decoding bytes that are already well-formed UTF-8 gives them back unchanged. */
  lemma {:induction false} LossyIdentity(s: seq<Byte>)
    requires WellFormed(s)
    ensures Lossy(s) == s
    decreases |s|
  {
    if s != [] {
      WellFormedHead(s);
      var n := NextStep(s).len;
      assert Lossy(s) == s[..n] + Lossy(s[n..]);
      LossyIdentity(s[n..]);
      assert s[..n] + s[n..] == s;
    }
  }

  /** The greedy decoder only ever produces well-formed UTF-8. */
  lemma {:induction false} LossyWellFormed(s: seq<Byte>)
    ensures WellFormed(Lossy(s))
    decreases |s|
  {
    if s != [] {
      match NextStep(s)
      case Char(n) =>
        LossyWellFormed(s[n..]);
        NextStepMatchesGrammar(s);
        WellFormedPrepend(s[..n], Lossy(s[n..]));
      case Bad(_) =>
        LossyWellFormed(s[1..]);
    }
  }

  /** A common prefix can be added to both sides of a subsequence. */
  lemma {:induction false} SubsequencePrefix(p: seq<Byte>, a: seq<Byte>, b: seq<Byte>)
    requires IsSubsequence(a, b)
    ensures IsSubsequence(p + a, p + b)
    decreases |p|
  {
    if p != [] {
      SubsequencePrefix(p[1..], a, b);
      var pa, pb := p + a, p + b;
      assert pa[0] == p[0] == pb[0];
      assert pa[1..] == p[1..] + a && pb[1..] == p[1..] + b;
      assert pa[0] == pb[0] && IsSubsequence(pa[1..], pb[1..]);
    } else {
      assert p + a == a && p + b == b;
    }
  }

  /** The decoded bytes are the input's bytes, in order, with some left out. */
  lemma {:induction false} LossySubsequence(s: seq<Byte>)
    ensures IsSubsequence(Lossy(s), s)
    decreases |s|
  {
    if s != [] {
      match NextStep(s)
      case Char(n) =>
        LossySubsequence(s[n..]);
        SubsequencePrefix(s[..n], Lossy(s[n..]), s[n..]);
        assert s[..n] + s[n..] == s;
      case Bad(_) =>
        LossySubsequence(s[1..]);
    }
  }

  /** A subsequence is never longer than the sequence it is taken from. */
  lemma {:induction false} SubsequenceLength(a: seq<Byte>, b: seq<Byte>)
    requires IsSubsequence(a, b)
    ensures |a| <= |b|
    decreases |b|
  {
    if a != [] {
      if a[0] == b[0] && IsSubsequence(a[1..], b[1..]) {
        SubsequenceLength(a[1..], b[1..]);
      } else {
        SubsequenceLength(a, b[1..]);
      }
    }
  }

  // ---------------------------------------------------------------------------
  // The pipeline agrees with the greedy decoder.

  /** Dropping empty parts before joining does not change the joined bytes. */
  lemma {:induction false} JoinNonEmptyParts(ps: seq<seq<Byte>>)
    ensures Join(NonEmptyParts(ps)) == Join(ps)
    decreases |ps|
  {
    if ps != [] {
      JoinNonEmptyParts(ps[1..]);
      if ps[0] != [] {
        assert ([ps[0]] + NonEmptyParts(ps[1..]))[1..] == NonEmptyParts(ps[1..]);
      }
    }
  }

  /** The prefix ValidPrefix measures is well-formed. */
  lemma {:induction false} ValidPrefixWellFormed(s: seq<Byte>)
    ensures WellFormed(s[..ValidPrefix(s)])
    decreases |s|
  {
    if s != [] && NextStep(s).Char? {
      var k := NextStep(s).len;
      var t := s[k..];
      var m := ValidPrefix(t);
      ValidPrefixWellFormed(t);
      NextStepMatchesGrammar(s);
      assert s[..k] + t[..m] == s[..k + m];
      WellFormedPrepend(s[..k], t[..m]);
    }
  }

  /** The prefix ValidPrefix measures is maximal: the scan stops after it on an
      ill-formed subpart. */
  lemma {:induction false} ValidPrefixMaximal(s: seq<Byte>)
    ensures ValidPrefix(s) < |s| ==> NextStep(s[ValidPrefix(s)..]).Bad?
    decreases |s|
  {
    if s != [] && NextStep(s).Char? {
      var k := NextStep(s).len;
      var t := s[k..];
      var m := ValidPrefix(t);
      ValidPrefixMaximal(t);
      assert ValidPrefix(s) == k + m;
      assert t[m..] == s[k + m..];
    }
  }

  /** Greedy decoding keeps a whole-character prefix as it is. */
  lemma {:induction false} LossyValidPrefix(s: seq<Byte>)
    ensures Lossy(s) == s[..ValidPrefix(s)] + Lossy(s[ValidPrefix(s)..])
    decreases |s|
  {
    if s != [] {
      match NextStep(s)
      case Char(k) =>
        var t := s[k..];
        var m := ValidPrefix(t);
        LossyValidPrefix(t);
        assert Lossy(s) == s[..k] + (t[..m] + Lossy(t[m..]));
        Regroup(s, k, m, Lossy(t[m..]));
      case Bad(_) =>
    }
  }

  lemma Regroup(s: seq<Byte>, k: nat, m: nat, x: seq<Byte>)
    requires k + m <= |s|
    ensures s[..k] + (s[k..][..m] + x) == s[..k + m] + x
    ensures s[k..][m..] == s[k + m..]
  {
    assert s[..k] + s[k..][..m] == s[..k + m];
  }

  /** A continuation byte at the head is dropped on its own. */
  lemma TailDropped(u: seq<Byte>)
    requires u != [] && IsTail(u[0])
    ensures Lossy(u) == Lossy(u[1..])
  {
    assert NextStep(u) == Bad(1);
  }

  /** Skipping a whole ill-formed subpart at once gives what dropping its bytes one by
      one gives, since every byte after its first is a continuation byte. */
  lemma SkipSubpart(t: seq<Byte>)
    requires t != [] && NextStep(t).Bad?
    ensures Lossy(t) == Lossy(t[NextStep(t).len..])
  {
    var w := NextStep(t).len;
    NextStepMatchesGrammar(t);
    if w >= 2 {
      TailDropped(t[1..]);
      assert t[1..][1..] == t[2..];
    }
    if w == 3 {
      TailDropped(t[2..]);
      assert t[2..][1..] == t[3..];
    }
  }

  /** Joining the valid parts of the chunks is the greedy decoding. */
  lemma {:induction false} ChunksJoinIsLossy(s: seq<Byte>)
    ensures Join(ValidParts(Chunks(s))) == Lossy(s)
    decreases |s|
  {
    if s != [] {
      var v, w := ValidPrefix(s), SubpartLen(s);
      var rest := s[v + w..];
      ChunksJoinIsLossy(rest);
      JoinValidPartsCons(Chunk(s[..v], s[v..v + w]), Chunks(rest));
      LossyValidPrefix(s);
      if w > 0 {
        ValidPrefixMaximal(s);
        SkipSubpart(s[v..]);
        assert s[v..][w..] == rest;
      }
    }
  }

  lemma JoinValidPartsCons(c: Chunk, cs: seq<Chunk>)
    ensures Join(ValidParts([c] + cs)) == c.valid + Join(ValidParts(cs))
  {
    assert ([c] + cs)[1..] == cs;
  }

  /** The chunks cover the input: their valid and invalid parts, in order, are the input. */
  lemma {:induction false} ChunksCover(s: seq<Byte>)
    ensures Flatten(Chunks(s)) == s
    decreases |s|
  {
    if s != [] {
      var v, w := ValidPrefix(s), SubpartLen(s);
      var rest := s[v + w..];
      ChunksCover(rest);
      var c := Chunk(s[..v], s[v..v + w]);
      FlattenCons(c, Chunks(rest));
      SplitThree(s, v, v + w);
    }
  }

  lemma SplitThree(s: seq<Byte>, i: nat, j: nat)
    requires i <= j <= |s|
    ensures s[..i] + s[i..j] + s[j..] == s
  {
  }

  lemma FlattenCons(c: Chunk, cs: seq<Chunk>)
    ensures Flatten([c] + cs) == c.valid + c.invalid + Flatten(cs)
  {
    assert ([c] + cs)[1..] == cs;
  }

  /** The valid part of every chunk is well-formed. */
  lemma {:induction false} ChunksValidWellFormed(s: seq<Byte>)
    ensures forall c :: c in Chunks(s) ==> WellFormed(c.valid)
    decreases |s|
  {
    if s != [] {
      var v, w := ValidPrefix(s), SubpartLen(s);
      var rest := s[v + w..];
      ChunksValidWellFormed(rest);
      ValidPrefixWellFormed(s);
      assert Chunks(s) == [Chunk(s[..v], s[v..v + w])] + Chunks(rest);
    }
  }

  // ---------------------------------------------------------------------------
  // What the pipeline promises.

  /** The pipeline as written computes the greedy decoding. */
  lemma DecodeIsLossy(stdout: seq<Byte>)
    ensures DecodeStdout(stdout) == Lossy(stdout)
  {
    JoinNonEmptyParts(ValidParts(Chunks(stdout)));
    ChunksJoinIsLossy(stdout);
  }

  /** Well-formed stdout comes through the pipeline unchanged. */
  lemma DecodeIdentity(stdout: seq<Byte>)
    requires WellFormed(stdout)
    ensures DecodeStdout(stdout) == stdout
  {
    DecodeIsLossy(stdout);
    LossyIdentity(stdout);
  }

  /** The decoded string is well-formed, an in-order subsequence of the stdout bytes
      and never longer than they are. */
  lemma DecodeSound(stdout: seq<Byte>)
    ensures WellFormed(DecodeStdout(stdout))
    ensures IsSubsequence(DecodeStdout(stdout), stdout)
    ensures |DecodeStdout(stdout)| <= |stdout|
  {
    DecodeIsLossy(stdout);
    LossyWellFormed(stdout);
    LossySubsequence(stdout);
    SubsequenceLength(DecodeStdout(stdout), stdout);
  }
}
