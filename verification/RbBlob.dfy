/** Rollback snapshots (runner/rb_state.c): a blob is "GRB2", a section count, a diagnostic token and
    ten length-prefixed sections. Sections are abstract save/load pairs over an abstract part of the
    machine; multi-byte numbers are little-endian. */
module RbBlob {
  import opened Bits
  import F = Fnv

  type byte = u8

  const NSEC: nat := 10
  const MAGIC: seq<byte> := [0x47, 0x52, 0x42, 0x32]
  const HEADER: nat := 16

  // ---- numbers -----------------------------------------------------------------------

  /** The k low bytes of a number; higher ones are cut off, as a cast to a narrower type does. */
  function Le(v: nat, k: nat): (s: seq<byte>)
    ensures |s| == k
  {
    if k == 0 then [] else [v % 256] + Le(v / 256, k - 1)
  }

  function Number(s: seq<byte>): nat
  {
    if s == [] then 0 else s[0] + 256 * Number(s[1..])
  }

  function Power256(i: nat): (p: nat)
    ensures p > 0
  {
    if i == 0 then 1 else 256 * Power256(i - 1)
  }

  /** Little-endian: byte i is the digit of weight 256^i. */
  lemma {:induction false} LeDigit(v: nat, k: nat, i: nat)
    requires i < k
    ensures Le(v, k)[i] == v / Power256(i) % 256
    decreases k
  {
    if i > 0 {
      LeDigit(v / 256, k - 1, i - 1);
      DivideTwice(v, 256, Power256(i - 1));
    }
  }

  lemma {:induction false} DivideTwice(v: nat, a: nat, b: nat)
    requires a > 0 && b > 0
    ensures a * b > 0 && v / a / b == v / (a * b)
  {
    var q := v / a;
    var p := q / b;
    assert a * b > 0;
    assert v == q * a + v % a && q == p * b + q % b;
    Nested(v, a, b, p, q % b, v % a);
  }

  lemma {:induction false} Nested(v: nat, a: nat, b: nat, p: nat, r: nat, t: nat)
    requires a > 0 && b > 0 && a * b > 0 && v == (p * b + r) * a + t && r < b && t < a
    ensures v / (a * b) == p
  {
    assert (p * b + r) * a == p * (a * b) + r * a;
    assert r * a + t < a * b by { assert (r + 1) * a <= b * a; assert r * a >= 0; }
    DivModUnique(v, a * b, p, r * a + t);
  }

  predicate Narrow(v: nat, k: nat)
  {
    if k == 0 then v == 0 else Narrow(v / 256, k - 1)
  }

  lemma {:induction false} NumberOfLe(v: nat, k: nat)
    requires Narrow(v, k)
    ensures Number(Le(v, k)) == v
    decreases k
  {
    if k > 0 {
      NumberOfLe(v / 256, k - 1);
      assert Le(v, k)[1..] == Le(v / 256, k - 1);
    }
  }

  lemma {:induction false} LeOfNumber(s: seq<byte>)
    ensures Le(Number(s), |s|) == s && Narrow(Number(s), |s|)
  {
    if s != [] {
      LeOfNumber(s[1..]);
      var v := Number(s);
      assert v % 256 == s[0] && v / 256 == Number(s[1..]);
    }
  }

  // ---- framing -----------------------------------------------------------------------

  function Framed(p: seq<byte>): seq<byte> { Le(|p|, 4) + p }

  function Sections(ps: seq<seq<byte>>): seq<byte>
  {
    if ps == [] then [] else Framed(ps[0]) + Sections(ps[1..])
  }

  function Header(token: nat): (h: seq<byte>)
    ensures |h| == HEADER
  {
    MAGIC + Le(NSEC, 4) + Le(token, 8)
  }

  function Encode(token: nat, ps: seq<seq<byte>>): seq<byte> { Header(token) + Sections(ps) }

  lemma {:induction false} SectionsAppend(ps: seq<seq<byte>>, qs: seq<seq<byte>>)
    ensures Sections(ps + qs) == Sections(ps) + Sections(qs)
  {
    if ps == [] {
      assert ps + qs == qs;
    } else {
      SectionsAppend(ps[1..], qs);
      assert (ps + qs)[1..] == ps[1..] + qs;
    }
  }

  lemma {:induction false} SectionsOne(p: seq<byte>)
    ensures Sections([p]) == Framed(p)
  {
    assert [p][1..] == [];
  }

  /** The payloads of exactly n sections that use up the bytes. */
  function ParseSections(b: seq<byte>, n: nat): (r: Option<seq<seq<byte>>>)
    ensures r.Some? ==> |r.value| == n
  {
    if n == 0 then (if b == [] then Some([]) else None)
    else if |b| < 4 then None
    else
      var len := Number(b[..4]);
      if |b| - 4 < len then None
      else
        match ParseSections(b[4 + len..], n - 1)
        case None => None
        case Some(rest) => Some([b[4..4 + len]] + rest)
  }

  datatype Blob = Blob(token: nat, payloads: seq<seq<byte>>)

  function Parse(b: seq<byte>): (r: Option<Blob>)
    ensures r.Some? ==> |r.value.payloads| == NSEC
  {
    if |b| < HEADER || b[..4] != MAGIC || Number(b[4..8]) != NSEC then None
    else
      match ParseSections(b[HEADER..], NSEC)
      case None => None
      case Some(ps) => Some(Blob(Number(b[8..HEADER]), ps))
  }

  predicate Sized(ps: seq<seq<byte>>) { forall i :: 0 <= i < |ps| ==> Narrow(|ps[i]|, 4) }

  lemma {:induction false} ParseSectionsOfEncoded(ps: seq<seq<byte>>)
    requires Sized(ps)
    ensures ParseSections(Sections(ps), |ps|) == Some(ps)
  {
    if ps != [] {
      var p, rest := ps[0], Sections(ps[1..]);
      var b := Framed(p) + rest;
      NumberOfLe(|p|, 4);
      assert b[..4] == Le(|p|, 4) && b[4..4 + |p|] == p && b[4 + |p|..] == rest;
      ParseSectionsOfEncoded(ps[1..]);
      assert [p] + ps[1..] == ps;
    }
  }

  lemma {:induction false} EncodedOfParseSections(b: seq<byte>, n: nat)
    requires ParseSections(b, n).Some?
    ensures Sections(ParseSections(b, n).value) == b && Sized(ParseSections(b, n).value)
  {
    if n > 0 {
      var len := Number(b[..4]);
      EncodedOfParseSections(b[4 + len..], n - 1);
      Reassembled(b, len, ParseSections(b[4 + len..], n - 1).value);
    }
  }

  /** A length word, its payload and the sections after it. */
  lemma {:induction false} Reassembled(b: seq<byte>, len: nat, rest: seq<seq<byte>>)
    requires 4 + len <= |b| && len == Number(b[..4]) && Sections(rest) == b[4 + len..] && Sized(rest)
    ensures Sections([b[4..4 + len]] + rest) == b && Sized([b[4..4 + len]] + rest)
  {
    var p := b[4..4 + len];
    LeOfNumber(b[..4]);
    SectionsAppend([p], rest);
    SectionsOne(p);
    assert b == b[..4] + p + b[4 + len..];
  }

  /** Only printed blobs parse: nothing is skipped, overlapped or left over. */
  lemma {:induction false} EncodeOfParse(b: seq<byte>)
    requires Parse(b).Some?
    ensures var r := Parse(b).value;
            Encode(r.token, r.payloads) == b && Sized(r.payloads) && Narrow(r.token, 8)
  {
    EncodedOfParseSections(b[HEADER..], NSEC);
    LeOfNumber(b[4..8]);
    LeOfNumber(b[8..HEADER]);
    assert b == b[..4] + b[4..8] + b[8..HEADER] + b[HEADER..];
  }

  /** Printing then parsing gives the payloads and the token back exactly when the lengths fit four
      bytes and the token eight. */
  lemma {:induction false} ParseOfEncode(token: nat, ps: seq<seq<byte>>)
    requires |ps| == NSEC
    ensures Parse(Encode(token, ps)) == Some(Blob(token, ps)) <==> Sized(ps) && Narrow(token, 8)
  {
    if Sized(ps) && Narrow(token, 8) { PrintedParses(token, ps); }
    if Parse(Encode(token, ps)) == Some(Blob(token, ps)) { EncodeOfParse(Encode(token, ps)); }
  }

  lemma {:induction false} PrintedParses(token: nat, ps: seq<seq<byte>>)
    requires |ps| == NSEC && Sized(ps) && Narrow(token, 8)
    ensures Parse(Encode(token, ps)) == Some(Blob(token, ps))
  {
    var b := Encode(token, ps);
    assert b[..4] == MAGIC && b[4..8] == Le(NSEC, 4) && b[8..HEADER] == Le(token, 8);
    assert b[HEADER..] == Sections(ps);
    NumberOfLe(NSEC, 4);
    NumberOfLe(token, 8);
    ParseSectionsOfEncoded(ps);
  }

  // ---- rb_frame ----------------------------------------------------------------------

  function Prepend(done: seq<seq<byte>>, o: Option<seq<seq<byte>>>): Option<seq<seq<byte>>>
  {
    match o
    case None => None
    case Some(ps) => Some(done + ps)
  }

  /** Sections at these offsets with these lengths lie one after another from the header on, with a
      length word before each. */
  ghost predicate Tiled(off: seq<nat>, sl: seq<nat>)
    requires |off| == |sl|
  {
    && (|off| > 0 ==> off[0] == HEADER + 4)
    && forall i, j :: 0 <= i && j == i + 1 && j < |off| ==> off[j] == off[i] + sl[i] + 4
  }

  function EndOf(off: seq<nat>, sl: seq<nat>): nat
    requires |off| == |sl|
  {
    if |off| == 0 then HEADER else off[|off| - 1] + sl[|sl| - 1]
  }

  lemma {:induction false} TiledBelow(off: seq<nat>, sl: seq<nat>, i: nat)
    requires |off| == |sl| && Tiled(off, sl) && i < |off|
    ensures HEADER + 4 <= off[i] && off[i] + sl[i] <= EndOf(off, sl)
    decreases |off|
  {
    var n := |off| - 1;
    if i < n {
      assert n - 1 >= 0 && off[n] == off[n - 1] + sl[n - 1] + 4;
      TiledBelow(off[..n], sl[..n], i);
    } else if n > 0 {
      assert off[n] == off[n - 1] + sl[n - 1] + 4;
      TiledBelow(off[..n], sl[..n], n - 1);
    }
  }

  function Slices(b: seq<byte>, off: seq<nat>, sl: seq<nat>): (r: seq<seq<byte>>)
    requires |off| == |sl|
    requires forall i :: 0 <= i < |off| ==> off[i] + sl[i] <= |b|
    ensures |r| == |off|
  {
    seq(|off|, i requires 0 <= i < |off| => b[off[i]..off[i] + sl[i]])
  }

  /** One turn of the walk. */
  lemma {:induction false} WalkStep(b: seq<byte>, p: nat, done: seq<seq<byte>>, n: nat)
    requires p <= |b| && n > 0
    ensures var o := Prepend(done, ParseSections(b[p..], n));
            if |b| - p < 4 then o == None
            else var len := Number(b[p..p + 4]);
                 var q := p + 4;
                 if |b| - q < len then o == None
                 else o == Prepend(done + [b[q..q + len]], ParseSections(b[q + len..], n - 1))
  {
    var r := b[p..];
    if |r| >= 4 {
      assert r[..4] == b[p..p + 4];
      var len := Number(r[..4]);
      if |r| - 4 >= len {
        assert r[4..4 + len] == b[p + 4..p + 4 + len] && r[4 + len..] == b[p + 4 + len..];
        match ParseSections(r[4 + len..], n - 1)
        case None =>
        case Some(rest) => assert done + ([r[4..4 + len]] + rest) == done + [r[4..4 + len]] + rest;
      }
    }
  }

  lemma {:induction false} PrependNothing(o: Option<seq<seq<byte>>>)
    ensures Prepend([], o) == o
  {
    if o.Some? { assert [] + o.value == o.value; }
  }

  /** Offsets and lengths found so far, and what is left to parse at p. */
  ghost predicate Walked(b: seq<byte>, off: seq<nat>, sl: seq<nat>, p: nat)
  {
    && |off| == |sl| <= NSEC && HEADER <= p <= |b| && Tiled(off, sl) && EndOf(off, sl) == p
    && (forall k :: 0 <= k < |off| ==> HEADER + 4 <= off[k] && off[k] + sl[k] <= |b|)
    && ParseSections(b[HEADER..], NSEC)
       == Prepend(Slices(b, off, sl), ParseSections(b[p..], NSEC - |off|))
  }

  lemma {:induction false} WalkStarts(b: seq<byte>)
    requires |b| >= HEADER
    ensures Walked(b, [], [], HEADER)
  {
    PrependNothing(ParseSections(b[HEADER..], NSEC));
    assert Slices(b, [], []) == [];
  }

  lemma {:induction false} WalkGoesOn(b: seq<byte>, off: seq<nat>, sl: seq<nat>, p: nat, len: nat)
    requires Walked(b, off, sl, p) && |off| < NSEC
    requires |b| - p >= 4 && len == Number(b[p..p + 4]) && |b| - (p + 4) >= len
    ensures Walked(b, off + [p + 4], sl + [len], p + 4 + len)
  {
    WalkStep(b, p, Slices(b, off, sl), NSEC - |off|);
    TilesGrow(off, sl, p, len);
    SlicesGrow(b, off, sl, p + 4, len);
  }

  lemma TilesGrow(off: seq<nat>, sl: seq<nat>, p: nat, len: nat)
    requires |off| == |sl| && Tiled(off, sl) && EndOf(off, sl) == p
    ensures Tiled(off + [p + 4], sl + [len]) && EndOf(off + [p + 4], sl + [len]) == p + 4 + len
  {
  }

  lemma SlicesGrow(b: seq<byte>, off: seq<nat>, sl: seq<nat>, q: nat, len: nat)
    requires |off| == |sl| && q + len <= |b| && forall k :: 0 <= k < |off| ==> off[k] + sl[k] <= |b|
    ensures forall k :: 0 <= k <= |off| ==> (off + [q])[k] + (sl + [len])[k] <= |b|
    ensures Slices(b, off + [q], sl + [len]) == Slices(b, off, sl) + [b[q..q + len]]
  {
  }

  /** rb_frame: accepts exactly the printed blobs, and the offsets and lengths cut out their payloads
      and tile the blob to its last byte. */
  method RbFrame(b: seq<byte>) returns (ok: bool, off: seq<nat>, sl: seq<nat>)
    ensures ok == Parse(b).Some? && |off| == |sl|
    ensures ok ==> |off| == NSEC && Tiled(off, sl) && EndOf(off, sl) == |b|
    ensures ok ==> forall i :: 0 <= i < NSEC ==> HEADER + 4 <= off[i] && off[i] + sl[i] <= |b|
    ensures ok ==> Parse(b).value.payloads == Slices(b, off, sl)
  {
    if |b| < HEADER || b[..4] != MAGIC { return false, [], []; }
    var nsec := Number(b[4..8]);
    if nsec != NSEC { return false, [], []; }
    ok, off, sl := WalkSections(b);
  }

  method WalkSections(b: seq<byte>) returns (ok: bool, off: seq<nat>, sl: seq<nat>)
    requires |b| >= HEADER
    ensures ok == ParseSections(b[HEADER..], NSEC).Some? && |off| == |sl|
    ensures ok ==> |off| == NSEC && Tiled(off, sl) && EndOf(off, sl) == |b|
    ensures ok ==> forall i :: 0 <= i < NSEC ==> HEADER + 4 <= off[i] && off[i] + sl[i] <= |b|
    ensures ok ==> ParseSections(b[HEADER..], NSEC).value == Slices(b, off, sl)
  {
    off, sl := [], [];
    var p: nat := HEADER;
    WalkStarts(b);
    for i := 0 to NSEC
      invariant |off| == i && Walked(b, off, sl, p)
    {
      WalkStep(b, p, Slices(b, off, sl), NSEC - i);
      if |b| - p < 4 { return false, off, sl; }
      var len := Number(b[p..p + 4]);
      if |b| - (p + 4) < len { return false, off, sl; }
      WalkGoesOn(b, off, sl, p, len);
      off, sl, p := off + [p + 4], sl + [len], p + 4 + len;
    }
    ok := p == |b|;
  }

  // ---- saving ------------------------------------------------------------------------

  /** One row of the section table: the bytes save(NULL, 0) asks for, what save writes (nothing when
      it fails), and the part after a load, unless the load rejects. */
  datatype Section<!X> = Section(need: X -> nat, save: X -> seq<byte>, load: (X, seq<byte>) -> Option<X>)

  /** A save writes no more than it asked for. */
  ghost predicate Bounded<X(!new)>(sec: Section<X>)
  {
    forall x :: |sec.save(x)| <= sec.need(x)
  }

  /** What the framing holds for a section: a section that asks for nothing is not called. */
  function Payload<X>(sec: Section<X>, x: X): seq<byte>
  {
    if sec.need(x) == 0 then [] else sec.save(x)
  }

  function Payloads<X>(table: seq<Section<X>>, parts: seq<X>): (ps: seq<seq<byte>>)
    requires |parts| == |table|
    ensures |ps| == |table|
  {
    seq(|table|, i requires 0 <= i < |table| => Payload(table[i], parts[i]))
  }

  /** genesis_rb_bound, over the first n sections. */
  function Bound<X>(table: seq<Section<X>>, parts: seq<X>, n: nat): nat
    requires n <= |table| == |parts|
  {
    if n == 0 then HEADER else Bound(table, parts, n - 1) + 4 + table[n - 1].need(parts[n - 1])
  }

  /** The blob up to section n. */
  function Written<X>(table: seq<Section<X>>, parts: seq<X>, n: nat): seq<byte>
    requires n <= |table| == |parts|
  {
    Encode(0, Payloads(table, parts)[..n])
  }

  lemma {:induction false} WrittenStep<X>(table: seq<Section<X>>, parts: seq<X>, n: nat)
    requires n < |table| == |parts|
    ensures Written(table, parts, n + 1) == Written(table, parts, n) + Framed(Payload(table[n], parts[n]))
  {
    var ps := Payloads(table, parts);
    assert ps[..n + 1] == ps[..n] + [ps[n]];
    SectionsAppend(ps[..n], [ps[n]]);
    SectionsOne(ps[n]);
    assert Header(0) + (Sections(ps[..n]) + Framed(ps[n])) == Header(0) + Sections(ps[..n]) + Framed(ps[n]);
  }

  /** Section i neither runs out of room nor fails. */
  predicate SectionSaves<X>(table: seq<Section<X>>, parts: seq<X>, cap: nat, i: nat)
    requires i < |table| == |parts|
  {
    var need := table[i].need(parts[i]);
    |Written(table, parts, i)| + 4 + need <= cap && (need == 0 || table[i].save(parts[i]) != [])
  }

  predicate Saves<X>(table: seq<Section<X>>, parts: seq<X>, cap: nat)
    requires |table| == |parts|
  {
    HEADER <= cap && forall i :: 0 <= i < |table| ==> SectionSaves(table, parts, cap, i)
  }

  lemma {:induction false} WrittenWithinBound<X(!new)>(table: seq<Section<X>>, parts: seq<X>, n: nat, m: nat)
    requires n <= m <= |table| == |parts| && forall i :: 0 <= i < |table| ==> Bounded(table[i])
    ensures |Written(table, parts, n)| <= Bound(table, parts, n) <= Bound(table, parts, m)
    decreases m
  {
    if n < m {
      WrittenWithinBound(table, parts, n, m - 1);
    } else if n > 0 {
      WrittenWithinBound(table, parts, n - 1, n - 1);
      WrittenStep(table, parts, n - 1);
      assert Bounded(table[n - 1]);
    }
  }

  /** A buffer of genesis_rb_bound bytes is always enough: only a failing section can stop a save. */
  lemma {:induction false} BoundSuffices<X(!new)>(table: seq<Section<X>>, parts: seq<X>, cap: nat)
    requires |table| == |parts| && Bound(table, parts, |table|) <= cap
    requires forall i :: 0 <= i < |table| ==> Bounded(table[i])
    requires forall i :: 0 <= i < |table| ==> table[i].need(parts[i]) == 0 || table[i].save(parts[i]) != []
    ensures Saves(table, parts, cap)
    ensures |Encode(0, Payloads(table, parts))| <= cap
  {
    forall i | 0 <= i < |table| ensures SectionSaves(table, parts, cap, i) {
      WrittenWithinBound(table, parts, i, i);
      WrittenWithinBound(table, parts, i + 1, |table|);
    }
    WrittenWithinBound(table, parts, 0, |table|);
    WrittenWithinBound(table, parts, |table|, |table|);
    assert Payloads(table, parts)[..|table|] == Payloads(table, parts);
  }

  /** memcpy into the output buffer. */
  method Put(dst: array<byte>, at: nat, bytes: seq<byte>)
    requires at + |bytes| <= dst.Length
    modifies dst
    ensures dst[..at + |bytes|] == old(dst[..at]) + bytes
    ensures dst[at + |bytes|..] == old(dst[at + |bytes|..])
  {
    forall k | 0 <= k < |bytes| { dst[at + k] := bytes[k]; }
    assert forall k :: 0 <= k < at ==> dst[k] == old(dst[k]);
    assert dst[at..at + |bytes|] == bytes;
    assert dst[..at + |bytes|] == dst[..at] + dst[at..at + |bytes|];
  }

  method PutHeader(dst: array<byte>)
    requires dst.Length >= HEADER
    modifies dst
    ensures dst[..HEADER] == Header(0) && dst[HEADER..] == old(dst[HEADER..])
  {
    Put(dst, 0, MAGIC);
    Put(dst, 4, Le(NSEC, 4));
    Put(dst, 8, Le(0, 8));
  }

  /** One section: nothing is written when it does not fit or fails. */
  method PutSection<X(!new)>(sec: Section<X>, x: X, dst: array<byte>, o: nat) returns (ok: bool, next: nat)
    requires o <= dst.Length && Bounded(sec)
    modifies dst
    ensures ok <==> o + 4 + sec.need(x) <= dst.Length && (sec.need(x) == 0 || sec.save(x) != [])
    ensures ok ==> o < next <= dst.Length && dst[..next] == old(dst[..o]) + Framed(Payload(sec, x))
    ensures ok ==> dst[next..] == old(dst[next..])
  {
    var need := sec.need(x);
    if dst.Length - o < 4 + need { return false, o; }
    var got := if need > 0 then sec.save(x) else [];
    if need > 0 && |got| == 0 { return false, o; }
    Put(dst, o, Framed(got));
    return true, o + 4 + |got|;
  }

  /** genesis_rb_save_untracked. */
  method SaveUntracked<X(!new)>(table: seq<Section<X>>, parts: seq<X>, dst: array<byte>) returns (n: nat)
    requires |table| == |parts| == NSEC && forall i :: 0 <= i < |table| ==> Bounded(table[i])
    modifies dst
    ensures n > 0 <==> Saves(table, parts, dst.Length)
    ensures n > 0 ==> n <= dst.Length && dst[..n] == Encode(0, Payloads(table, parts)) && dst[n..] == old(dst[n..])
  {
    if dst.Length < HEADER { return 0; }
    PutHeader(dst);
    WrittenEnds(table, parts);
    n := SaveSections(table, parts, dst, old(dst[..]));
  }

  /** The loop over the table. */
  method SaveSections<X(!new)>(table: seq<Section<X>>, parts: seq<X>, dst: array<byte>, ghost before: seq<byte>)
    returns (n: nat)
    requires |table| == |parts| && (forall i :: 0 <= i < |table| ==> Bounded(table[i])) && |before| == dst.Length
    requires dst.Length >= HEADER && dst[..HEADER] == Written(table, parts, 0) && dst[HEADER..] == before[HEADER..]
    modifies dst
    ensures n > 0 <==> forall i :: 0 <= i < |table| ==> SectionSaves(table, parts, dst.Length, i)
    ensures n > 0 ==> n <= dst.Length && dst[..n] == Written(table, parts, |table|) && dst[n..] == before[n..]
  {
    var o := HEADER;
    for i := 0 to |table|
      invariant HEADER <= o <= dst.Length && dst[..o] == Written(table, parts, i) && dst[o..] == before[o..]
      invariant forall k :: 0 <= k < i ==> SectionSaves(table, parts, dst.Length, k)
    {
      var ok;
      ok, o := SaveTurn(table, parts, dst, o, i, before);
      if !ok { return 0; }
    }
    return o;
  }

  /** One turn of the loop: section i goes after the sections before it. */
  method SaveTurn<X(!new)>(table: seq<Section<X>>, parts: seq<X>, dst: array<byte>, o: nat, i: nat, ghost before: seq<byte>)
    returns (ok: bool, next: nat)
    requires i < |table| == |parts| && Bounded(table[i]) && |before| == dst.Length
    requires o <= dst.Length && dst[..o] == Written(table, parts, i) && dst[o..] == before[o..]
    modifies dst
    ensures ok == SectionSaves(table, parts, dst.Length, i)
    ensures ok ==> o <= next <= dst.Length && dst[..next] == Written(table, parts, i + 1) && dst[next..] == before[next..]
  {
    WrittenStep(table, parts, i);
    assert |Written(table, parts, i)| == o;
    ok, next := PutSection(table[i], parts[i], dst, o);
    if ok {
      SuffixKept(before, o, next);
      SuffixKept(old(dst[..]), o, next);
    }
  }

  lemma SuffixKept(d: seq<byte>, i: nat, j: nat)
    requires i <= j <= |d|
    ensures d[i..][j - i..] == d[j..]
  {
  }

  lemma {:induction false} WrittenEnds<X>(table: seq<Section<X>>, parts: seq<X>)
    requires |table| == |parts|
    ensures Written(table, parts, 0) == Header(0)
    ensures Written(table, parts, |table|) == Encode(0, Payloads(table, parts))
  {
    assert Payloads(table, parts)[..0] == [];
    assert Payloads(table, parts)[..|table|] == Payloads(table, parts);
  }

  /** genesis_rb_save: the same blob with the replay token in its header. */
  method Save<X(!new)>(table: seq<Section<X>>, parts: seq<X>, dst: array<byte>, token: nat) returns (n: nat)
    requires |table| == |parts| == NSEC && forall i :: 0 <= i < |table| ==> Bounded(table[i])
    modifies dst
    ensures n > 0 <==> Saves(table, parts, dst.Length)
    ensures n > 0 ==> n <= dst.Length && dst[..n] == Encode(token, Payloads(table, parts)) && dst[n..] == old(dst[n..])
  {
    n := SaveUntracked(table, parts, dst);
    if n > 0 {
      ghost var body := Sections(Payloads(table, parts));
      assert dst[..8] == dst[..n][..8] == MAGIC + Le(NSEC, 4);
      assert dst[HEADER..n] == dst[..n][HEADER..] == body;
      ghost var tail := dst[HEADER..];
      Put(dst, 8, Le(token, 8));
      assert dst[HEADER..n] == dst[HEADER..][..n - HEADER] == tail[..n - HEADER];
      assert dst[..n] == dst[..HEADER] + dst[HEADER..n];
      assert dst[n..] == dst[HEADER..][n - HEADER..] == tail[n - HEADER..];
    }
  }

  // ---- loading -----------------------------------------------------------------------

  /** One turn of the loading loop: an empty section that asks for nothing is passed over. */
  function LoadSection<X>(sec: Section<X>, x: X, p: seq<byte>): Option<X>
  {
    if p == [] && sec.need(x) == 0 then Some(x) else sec.load(x, p)
  }

  /** Only a section that is empty on both sides is passed over. */
  lemma LoaderCalled<X>(sec: Section<X>, x: X, p: seq<byte>)
    requires p != [] || sec.need(x) > 0
    ensures LoadSection(sec, x, p) == sec.load(x, p)
  {
  }

  /** Sections that load before the first that rejects, from i on. */
  function Accepted<X>(table: seq<Section<X>>, parts: seq<X>, ps: seq<seq<byte>>, i: nat): (k: nat)
    requires i <= |table| == |parts| == |ps|
    ensures i <= k <= |table|
    decreases |table| - i
  {
    if i < |table| && LoadSection(table[i], parts[i], ps[i]).Some? then Accepted(table, parts, ps, i + 1) else i
  }

  /** The parts after the loading loop: those before the first rejection are replaced, the rejecting
      one and those after it are not. */
  function AfterLoad<X>(table: seq<Section<X>>, parts: seq<X>, ps: seq<seq<byte>>): (r: seq<X>)
    requires |table| == |parts| == |ps|
    ensures |r| == |table|
  {
    seq(|table|, i requires 0 <= i < |table| =>
      var x := LoadSection(table[i], parts[i], ps[i]);
      if i < Accepted(table, parts, ps, 0) && x.Some? then x.value else parts[i])
  }

  lemma {:induction false} AcceptedLoad<X>(table: seq<Section<X>>, parts: seq<X>, ps: seq<seq<byte>>, i: nat)
    requires i <= |table| == |parts| == |ps|
    ensures var k := Accepted(table, parts, ps, i);
            && (forall j :: i <= j < k ==> LoadSection(table[j], parts[j], ps[j]).Some?)
            && (k < |table| ==> LoadSection(table[k], parts[k], ps[k]).None?)
    decreases |table| - i
  {
    if i < |table| && LoadSection(table[i], parts[i], ps[i]).Some? { AcceptedLoad(table, parts, ps, i + 1); }
  }

  /** The section gives back whatever was saved, over any present contents. */
  ghost predicate Restores<X(!new)>(sec: Section<X>)
  {
    forall x, y :: (sec.need(x) == 0 || sec.save(x) != []) ==> LoadSection(sec, y, Payload(sec, x)) == Some(x)
  }

  /** What a save would write for a section now, if it would save at all. */
  function WouldWrite<X>(sec: Section<X>, x: X): Option<seq<byte>>
  {
    if sec.need(x) == 0 then Some([]) else if sec.save(x) == [] then None else Some(sec.save(x))
  }

  lemma {:induction false} LoadKeepsPart<X(!new)>(sec: Section<X>, x: X, p: seq<byte>, saved: X)
    requires Restores(sec) && WouldWrite(sec, saved) == Some(p)
    ensures LoadSection(sec, x, p) == Some(saved)
    ensures saved == x <==> WouldWrite(sec, x) == Some(p)
  {
    assert Payload(sec, saved) == p;
    if WouldWrite(sec, x) == Some(p) {
      assert Payload(sec, x) == p;
      assert LoadSection(sec, x, Payload(sec, x)) == Some(x);
    }
  }

  /** rb_state.h promises that section lengths are checked before anything changes; the code checks
      the framing only. When the sections before the first rejection were saved by this process, a load
      leaves the machine as it was exactly when those sections of the blob are byte for byte what a
      save would write now, which a caller can find out by saving. */
  lemma {:induction false} FailedLoadChanges<X(!new)>(table: seq<Section<X>>, parts: seq<X>, ps: seq<seq<byte>>, saved: seq<X>, k: nat)
    requires |table| == |parts| == |ps| == |saved| && k == Accepted(table, parts, ps, 0)
    requires forall i :: 0 <= i < k ==> Restores(table[i]) && WouldWrite(table[i], saved[i]) == Some(ps[i])
    ensures AfterLoad(table, parts, ps) == parts
            <==> forall i :: 0 <= i < k ==> WouldWrite(table[i], parts[i]) == Some(ps[i])
  {
    var r := AfterLoad(table, parts, ps);
    forall i | 0 <= i < k
      ensures r[i] == saved[i] && (saved[i] == parts[i] <==> WouldWrite(table[i], parts[i]) == Some(ps[i]))
    {
      LoadKeepsPart(table[i], parts[i], ps[i], saved[i]);
    }
    assert forall i :: k <= i < |table| ==> r[i] == parts[i];
    if r == parts {
      assert forall i :: 0 <= i < k ==> saved[i] == parts[i];
    }
  }

  /** A section that is a plain image of n bytes, as the cpu, RAM and input sections are. */
  function Image(n: nat): Section<seq<byte>>
  {
    Section((x: seq<byte>) => n, (x: seq<byte>) => if |x| == n then x else [],
            (x: seq<byte>, p: seq<byte>) => if |p| == n then Some(p) else None)
  }

  /** Ten one-byte images, and a blob whose second section is a byte too long. */
  function Images(): seq<Section<seq<byte>>> { seq(NSEC, _ => Image(1)) }

  function LongSecond(): seq<seq<byte>>
  {
    seq(NSEC, i => if i == 1 then [7, 7] else [7])
  }

  /** The blob frames, its first section loads and its second is rejected. */
  lemma {:induction false} FailedLoadExample(parts: seq<seq<byte>>)
    requires parts == seq(NSEC, _ => [5])
    ensures Parse(Encode(0, LongSecond())) == Some(Blob(0, LongSecond()))
    ensures Accepted(Images(), parts, LongSecond(), 0) == 1
    ensures AfterLoad(Images(), parts, LongSecond()) == parts[0 := [7]]
  {
    LongSecondParses();
    SecondRejects(Images(), parts, LongSecond());
  }

  lemma {:induction false} LongSecondParses()
    ensures Parse(Encode(0, LongSecond())) == Some(Blob(0, LongSecond()))
  {
    assert Narrow(1, 4) && Narrow(2, 4) && Narrow(0, 8);
    PrintedParses(0, LongSecond());
  }

  lemma {:induction false} SecondRejects(table: seq<Section<seq<byte>>>, parts: seq<seq<byte>>, ps: seq<seq<byte>>)
    requires |table| == |parts| == |ps| == NSEC && table[0] == table[1] == Image(1)
    requires |parts[0]| == |parts[1]| == 1 && |ps[0]| == 1 && |ps[1]| == 2
    ensures Accepted(table, parts, ps, 0) == 1 && AfterLoad(table, parts, ps) == parts[0 := ps[0]]
  {
    assert LoadSection(table[0], parts[0], ps[0]) == Some(ps[0]);
    assert LoadSection(table[1], parts[1], ps[1]) == None;
    assert Accepted(table, parts, ps, 1) == 1;
  }

  /** The same blob given to the live machine: the load fails and the first section has changed. */
  method FailedLoadWitness() returns (m: Live<seq<byte>>, ok: bool)
    ensures fresh(m) && !ok && m.restored == []
    ensures m.parts == seq(NSEC, _ => [5])[0 := [7]]
  {
    m := new Live(Images(), seq(NSEC, _ => [5]));
    FailedLoadExample(m.parts);
    ok := m.Load(Encode(0, LongSecond()));
  }

  /** The live machine, one part per section. */
  class Live<X(!new)> {
    const table: seq<Section<X>>
    var parts: seq<X>
    var restored: seq<nat>          // tokens handed to the recorder

    constructor (table: seq<Section<X>>, parts: seq<X>)
      requires |table| == |parts| == NSEC
      ensures this.table == table && this.parts == parts && restored == []
    {
      this.table, this.parts, restored := table, parts, [];
    }

    /** genesis_rb_load: a blob that is not well framed changes nothing; otherwise sections load in
        order up to the first that rejects, and the call succeeds when none does. */
    method Load(b: seq<byte>) returns (ok: bool)
      requires |table| == |parts| == NSEC
      modifies this
      ensures |parts| == NSEC
      ensures Parse(b).None? ==> !ok && parts == old(parts) && restored == old(restored)
      ensures Parse(b).Some? ==>
        var r := Parse(b).value;
        var k := Accepted(table, old(parts), r.payloads, 0);
        && ok == (k == NSEC) && restored == old(restored) + (if ok then [r.token] else [])
        && parts == AfterLoad(table, old(parts), r.payloads)
    {
      var framed, off, sl := RbFrame(b);
      if !framed { return false; }
      ghost var ps := Parse(b).value.payloads;
      for i := 0 to NSEC
        invariant |parts| == NSEC && restored == old(restored)
        invariant Accepted(table, old(parts), ps, 0) == Accepted(table, old(parts), ps, i)
        invariant forall k :: 0 <= k < i ==> Some(parts[k]) == LoadSection(table[k], old(parts)[k], ps[k])
        invariant forall k :: i <= k < NSEC ==> parts[k] == old(parts)[k]
      {
        var payload := b[off[i]..off[i] + sl[i]];
        assert payload == ps[i];
        if sl[i] == 0 && table[i].need(parts[i]) == 0 { continue; }
        var next := table[i].load(parts[i], payload);
        if next.None? { return false; }
        parts := parts[i := next.value];
      }
      restored := restored + [Number(b[8..HEADER])];
      return true;
    }

    /** Loading a blob that was saved from other contents brings those contents back. */
    method Restore(saved: seq<X>, token: nat, b: seq<byte>) returns (ok: bool)
      requires |table| == |parts| == |saved| == NSEC && Narrow(token, 8)
      requires b == Encode(token, Payloads(table, saved)) && Sized(Payloads(table, saved))
      requires forall i :: 0 <= i < NSEC ==> Restores(table[i])
      requires forall i :: 0 <= i < NSEC ==> table[i].need(saved[i]) == 0 || table[i].save(saved[i]) != []
      modifies this
      ensures ok && parts == saved && restored == old(restored) + [token]
    {
      PrintedParses(token, Payloads(table, saved));
      AllAccepted(table, parts, saved, 0);
      ok := Load(b);
    }
  }

  lemma {:induction false} AllAccepted<X(!new)>(table: seq<Section<X>>, parts: seq<X>, saved: seq<X>, i: nat)
    requires i <= |table| == |parts| == |saved|
    requires forall k :: 0 <= k < |table| ==> Restores(table[k])
    requires forall k :: 0 <= k < |table| ==> table[k].need(saved[k]) == 0 || table[k].save(saved[k]) != []
    ensures Accepted(table, parts, Payloads(table, saved), i) == |table|
    ensures forall k :: 0 <= k < |table| ==>
              LoadSection(table[k], parts[k], Payloads(table, saved)[k]) == Some(saved[k])
    decreases |table| - i
  {
    forall k | 0 <= k < |table|
      ensures LoadSection(table[k], parts[k], Payloads(table, saved)[k]) == Some(saved[k])
    {
      assert Restores(table[k]);
    }
    if i < |table| { AllAccepted(table, parts, saved, i + 1); }
  }

  // ---- the replay surface ------------------------------------------------------------

  /** Section i's length word starts where the sections before it end. */
  lemma {:induction false} StartOf(ps: seq<seq<byte>>, off: seq<nat>, sl: seq<nat>, i: nat)
    requires |ps| == |off| == |sl| && i < |off| && Tiled(off, sl)
    requires forall k :: 0 <= k < |ps| ==> |ps[k]| == sl[k]
    ensures off[i] == HEADER + |Sections(ps[..i])| + 4
  {
    if i == 0 {
      assert ps[..0] == [];
    } else {
      StartOf(ps, off, sl, i - 1);
      assert off[i] == off[i - 1] + sl[i - 1] + 4;
      assert ps[..i] == ps[..i - 1] + [ps[i - 1]];
      SectionsAppend(ps[..i - 1], [ps[i - 1]]);
      SectionsOne(ps[i - 1]);
    }
  }

  /** The bytes from section i's length word to section j's are sections i to j. */
  lemma {:induction false} SpanIsSections(token: nat, ps: seq<seq<byte>>, off: seq<nat>, sl: seq<nat>, i: nat, j: nat)
    requires |ps| == |off| == |sl| && i <= j < |off| && Tiled(off, sl)
    requires forall k :: 0 <= k < |ps| ==> |ps[k]| == sl[k]
    ensures var b := Encode(token, ps);
            HEADER + 4 <= off[i] <= off[j] <= |b| && b[off[i] - 4..off[j] - 4] == Sections(ps[i..j])
  {
    StartOf(ps, off, sl, i);
    StartOf(ps, off, sl, j);
    assert ps == ps[..i] + ps[i..j] + ps[j..] && ps[..j] == ps[..i] + ps[i..j];
    SectionsAppend(ps[..i] + ps[i..j], ps[j..]);
    SectionsAppend(ps[..i], ps[i..j]);
    var b := Encode(token, ps);
    var x, y, z := Header(token) + Sections(ps[..i]), Sections(ps[i..j]), Sections(ps[j..]);
    assert b == x + y + z;
    assert |z| >= 4 by { FirstOf(ps[j..]); }
    Middle(x, y, z);
  }

  lemma Middle(x: seq<byte>, y: seq<byte>, z: seq<byte>)
    ensures (x + y + z)[|x|..|x| + |y|] == y
  {
  }

  /** What the four replay hashes read: cpu and scheduler, work RAM, machine to input, game. */
  function Surface(ps: seq<seq<byte>>): seq<seq<byte>>
    requires |ps| == NSEC
  {
    [ps[1] + Framed(ps[2]), ps[3], ps[4] + Sections(ps[5..9]), ps[9]]
  }

  lemma {:induction false} SurfaceSlices(b: seq<byte>, token: nat, ps: seq<seq<byte>>, off: seq<nat>, sl: seq<nat>)
    requires |ps| == |off| == |sl| == NSEC && Tiled(off, sl) && b == Encode(token, ps)
    requires forall k :: 0 <= k < |ps| ==> |ps[k]| == sl[k]
    ensures off[1] + 4 <= off[3] <= |b| && off[4] + 4 <= off[9] <= |b|
    ensures b[off[1]..off[3] - 4] == ps[1] + Framed(ps[2])
    ensures b[off[4]..off[9] - 4] == ps[4] + Sections(ps[5..9])
  {
    SpanIsSections(token, ps, off, sl, 1, 3);
    SpanIsSections(token, ps, off, sl, 4, 9);
    FirstOf(ps[1..3]);
    FirstOf(ps[4..9]);
    assert ps[1..3][1..] == [ps[2]] && ps[4..9][1..] == ps[5..9];
    SectionsOne(ps[2]);
    assert b[off[1]..off[3] - 4] == b[off[1] - 4..off[3] - 4][4..];
    assert b[off[4]..off[9] - 4] == b[off[4] - 4..off[9] - 4][4..];
  }

  lemma {:induction false} FirstOf(ps: seq<seq<byte>>)
    requires ps != []
    ensures |Sections(ps)| >= 4 && Sections(ps)[4..] == ps[0] + Sections(ps[1..])
  {
    DropFront(Le(|ps[0]|, 4), ps[0], Sections(ps[1..]));
  }

  lemma {:induction false} DropFront(a: seq<byte>, b: seq<byte>, c: seq<byte>)
    ensures (a + b + c)[|a|..] == b + c
  {
    assert a + b + c == a + (b + c);
  }

  /** Slices that follow one another, apart, after `from` and up to `to`. */
  predicate Apart(at: seq<nat>, sizes: seq<nat>, from: nat, to: nat)
  {
    && |at| == |sizes| == 4
    && from < at[0]
    && at[0] + sizes[0] < at[1]
    && at[1] + sizes[1] < at[2]
    && at[2] + sizes[2] < at[3]
    && at[3] + sizes[3] == to
  }

  /** The four slices are the replay surface, and hold neither the header nor the exec section. */
  ghost predicate Cuts(b: seq<byte>, ps: seq<seq<byte>>, at: seq<nat>, sizes: seq<nat>)
    requires |ps| == NSEC
  {
    && Apart(at, sizes, HEADER + 4 + |ps[0]|, |b|)
    && Slices(b, at, sizes) == Surface(ps)
  }

  lemma {:induction false} CutsFound(b: seq<byte>, token: nat, ps: seq<seq<byte>>, off: seq<nat>, sl: seq<nat>)
    requires |ps| == |off| == |sl| == NSEC && Tiled(off, sl) && EndOf(off, sl) == |b| && b == Encode(token, ps)
    requires forall k :: 0 <= k < NSEC ==> |ps[k]| == sl[k]
    requires off[3] + sl[3] <= |b| && ps[3] == b[off[3]..off[3] + sl[3]] && ps[9] == b[off[9]..off[9] + sl[9]]
    ensures off[1] + 4 <= off[3] && off[4] + 4 <= off[9]
    ensures Cuts(b, ps, [off[1], off[3], off[4], off[9]],
                 [off[3] - 4 - off[1], sl[3], off[9] - 4 - off[4], sl[9]])
  {
    SurfaceSlices(b, token, ps, off, sl);
    SectionOrder(b, off, sl);
    FourSlices(b, ps, off[1], off[3], off[4], off[9], sl[3], sl[9]);
  }

  lemma {:induction false} SectionOrder(b: seq<byte>, off: seq<nat>, sl: seq<nat>)
    requires |off| == |sl| == NSEC && Tiled(off, sl) && EndOf(off, sl) == |b|
    ensures off[1] == HEADER + 8 + sl[0] && off[4] == off[3] + sl[3] + 4 && off[9] + sl[9] == |b|
  {
    var i, j := 0, 3;
    assert off[i + 1] == off[i] + sl[i] + 4 && off[j + 1] == off[j] + sl[j] + 4;
  }

  lemma {:induction false} FourSlices(b: seq<byte>, ps: seq<seq<byte>>, x: nat, y: nat, z: nat, w: nat, m: nat, n: nat)
    requires |ps| == NSEC && HEADER + 4 + |ps[0]| < x && x + 4 <= y && z == y + m + 4 && z + 4 <= w && w + n == |b|
    requires b[x..y - 4] == ps[1] + Framed(ps[2]) && b[y..y + m] == ps[3]
    requires b[z..w - 4] == ps[4] + Sections(ps[5..9]) && b[w..w + n] == ps[9]
    ensures Cuts(b, ps, [x, y, z, w], [y - 4 - x, m, w - 4 - z, n])
  {
    var at: seq<nat>, sizes: seq<nat> := [x, y, z, w], [y - 4 - x, m, w - 4 - z, n];
    assert Apart(at, sizes, HEADER + 4 + |ps[0]|, |b|);
    assert Slices(b, at, sizes) == Surface(ps);
  }

  /** genesis_rb_replay_parts. */
  method ReplayParts(b: seq<byte>) returns (ok: bool, at: seq<nat>, sizes: seq<nat>)
    ensures ok == Parse(b).Some?
    ensures ok ==> Cuts(b, Parse(b).value.payloads, at, sizes)
  {
    var framed, off, sl := RbFrame(b);
    if !framed { return false, [], []; }
    EncodeOfParse(b);
    ghost var ps := Parse(b).value.payloads;
    assert forall k :: 0 <= k < NSEC ==> |ps[k]| == sl[k];
    CutsFound(b, Parse(b).value.token, ps, off, sl);
    at := [off[1], off[3], off[4], off[9]];
    sizes := [off[3] - 4 - off[1], sl[3], off[9] - 4 - off[4], sl[9]];
    ok := true;
  }

  /** With the two leading sections of fixed size, as the cpu and machine images are, the surface
      determines every section but exec. */
  lemma {:induction false} SurfaceSeparates(ps: seq<seq<byte>>, qs: seq<seq<byte>>)
    requires |ps| == |qs| == NSEC && Sized(ps) && Sized(qs)
    requires |ps[1]| == |qs[1]| && |ps[4]| == |qs[4]|
    ensures Surface(ps) == Surface(qs) <==> ps[1..] == qs[1..]
  {
    if ps[1..] == qs[1..] {
      assert forall k :: 1 <= k < NSEC ==> ps[k] == ps[1..][k - 1] && qs[k] == qs[1..][k - 1];
      assert ps[5..9] == qs[5..9];
    }
    if Surface(ps) == Surface(qs) { SurfaceDetermines(ps, qs); }
  }

  lemma {:induction false} SurfaceDetermines(ps: seq<seq<byte>>, qs: seq<seq<byte>>)
    requires |ps| == |qs| == NSEC && Sized(ps) && Sized(qs)
    requires |ps[1]| == |qs[1]| && |ps[4]| == |qs[4]| && Surface(ps) == Surface(qs)
    ensures ps[1..] == qs[1..]
  {
    assert forall k :: 0 <= k < 4 ==> Surface(ps)[k] == Surface(qs)[k];
    SamePrefix(ps[1], Framed(ps[2]), qs[1], Framed(qs[2]));
    SamePrefix(ps[4], Sections(ps[5..9]), qs[4], Sections(qs[5..9]));
    assert Framed(ps[2])[4..] == ps[2] && Framed(qs[2])[4..] == qs[2];
    ParseSectionsOfEncoded(ps[5..9]);
    ParseSectionsOfEncoded(qs[5..9]);
    assert forall k :: 5 <= k < 9 ==> ps[k] == ps[5..9][k - 5] && qs[k] == qs[5..9][k - 5];
  }

  lemma {:induction false} SamePrefix(a: seq<byte>, x: seq<byte>, b: seq<byte>, y: seq<byte>)
    requires a + x == b + y && |a| == |b|
    ensures a == b && x == y
  {
    assert a == (a + x)[..|a|] && b == (b + y)[..|b|];
    assert x == (a + x)[|a|..] && y == (b + y)[|b|..];
  }

  // ---- the machine digest ------------------------------------------------------------

  /** Where the chips lie in the machine image. */
  datatype Layout = Layout(vo: nat, vn: nat, bo: nat, bn: nat, zo: nat, size: nat)

  predicate Sound(l: Layout) { l.vo + l.vn <= l.bo && l.bo + l.bn <= l.zo <= l.size }

  datatype Digests = Digests(vdp: u64, bus: u64, z80: u64)

  /** The bytes each partition folds, in folding order. */
  function VdpBytes(l: Layout, b: seq<byte>): seq<byte>
    requires Sound(l) && l.size <= |b|
  {
    b[l.vo..l.vo + l.vn] + b[..l.vo] + b[l.vo + l.vn..l.bo]
  }

  function BusBytes(l: Layout, b: seq<byte>): seq<byte>
    requires Sound(l) && l.size <= |b|
  {
    b[l.bo..l.bo + l.bn] + b[l.bo + l.bn..l.zo]
  }

  function MachineDigest(l: Layout, b: seq<byte>, d: Digests): Digests
    requires Sound(l)
  {
    if |b| < l.size then d
    else Digests(F.FoldBytes(d.vdp, VdpBytes(l, b)), F.FoldBytes(d.bus, BusBytes(l, b)),
                 F.FoldBytes(d.z80, b[l.zo..]))
  }

  /** digest_machine, with the FNV digest. */
  method DigestMachine(l: Layout, b: seq<byte>, start: Digests) returns (d: Digests)
    requires Sound(l)
    ensures d == MachineDigest(l, b, start)
  {
    d := start;
    if |b| < l.size { return; }
    var chip, before, after := b[l.vo..l.vo + l.vn], b[..l.vo], b[l.vo + l.vn..l.bo];
    var bus, pad := b[l.bo..l.bo + l.bn], b[l.bo + l.bn..l.zo];
    ThreeFolds(start.vdp, chip, before, after);
    ThreeFolds(start.bus, bus, pad, []);
    assert bus + pad + [] == bus + pad;
    d := d.(vdp := F.FoldBytes(d.vdp, chip));
    d := d.(bus := F.FoldBytes(d.bus, bus));
    d := d.(z80 := F.FoldBytes(d.z80, b[l.zo..]));
    if l.vo > 0 { d := d.(vdp := F.FoldBytes(d.vdp, before)); }
    if l.bo > l.vo + l.vn { d := d.(vdp := F.FoldBytes(d.vdp, after)); }
    if l.zo > l.bo + l.bn { d := d.(bus := F.FoldBytes(d.bus, pad)); }
  }

  /** Folding in pieces, leaving out empty ones, is folding the whole. */
  lemma {:induction false} ThreeFolds(h: u64, p: seq<byte>, q: seq<byte>, r: seq<byte>)
    ensures var x := F.FoldBytes(h, p);
            var y := if q == [] then x else F.FoldBytes(x, q);
            F.FoldBytes(h, p + q + r) == if r == [] then y else F.FoldBytes(y, r)
  {
    F.FoldConcat(h, p, q);
    F.FoldConcat(h, p + q, r);
    assert q == [] ==> F.FoldBytes(F.FoldBytes(h, p), q) == F.FoldBytes(h, p);
    assert r == [] ==> p + q + r == p + q;
  }

  lemma {:induction false} Halves(s: seq<byte>, i: nat, j: nat)
    requires i <= j <= |s|
    ensures multiset(s[..j]) == multiset(s[..i]) + multiset(s[i..j])
  {
    assert s[..j] == s[..i] + s[i..j];
  }

  /** The partitions hold each byte of the image exactly once. */
  lemma {:induction false} PartitionsCover(l: Layout, b: seq<byte>)
    requires Sound(l) && l.size <= |b|
    ensures multiset(VdpBytes(l, b)) + multiset(BusBytes(l, b)) + multiset(b[l.zo..]) == multiset(b)
  {
    VdpCovers(l, b);
    BusCovers(l, b);
    assert b[..|b|] == b;
    Halves(b, l.zo, |b|);
  }

  lemma {:induction false} VdpCovers(l: Layout, b: seq<byte>)
    requires Sound(l) && l.size <= |b|
    ensures multiset(VdpBytes(l, b)) == multiset(b[..l.bo])
  {
    Halves(b, l.vo, l.vo + l.vn);
    Halves(b, l.vo + l.vn, l.bo);
    Bags(b[l.vo..l.vo + l.vn], b[..l.vo], b[l.vo + l.vn..l.bo]);
  }

  lemma Bags(p: seq<byte>, q: seq<byte>, r: seq<byte>)
    ensures multiset(p + q + r) == multiset(p) + multiset(q) + multiset(r)
  {
  }

  lemma {:induction false} BusCovers(l: Layout, b: seq<byte>)
    requires Sound(l) && l.size <= |b|
    ensures multiset(b[..l.bo]) + multiset(BusBytes(l, b)) == multiset(b[..l.zo])
  {
    var chip, pad := b[l.bo..l.bo + l.bn], b[l.bo + l.bn..l.zo];
    Halves(b, l.bo, l.bo + l.bn);
    Halves(b, l.bo + l.bn, l.zo);
    assert multiset(chip + pad) == multiset(chip) + multiset(pad);
  }

  /** Which partition folds byte i, and at which place. */
  function VdpPlace(l: Layout, i: nat): nat
    requires Sound(l) && i < l.bo
  {
    if i < l.vo then l.vn + i else if i < l.vo + l.vn then i - l.vo else i
  }

  lemma PlaceVdp(l: Layout, b: seq<byte>, i: nat, x: byte)
    requires Sound(l) && l.size <= |b| && i < |b|
    ensures i < l.bo ==> VdpPlace(l, i) < |VdpBytes(l, b)| && VdpBytes(l, b)[VdpPlace(l, i)] == b[i]
                         && VdpBytes(l, b[i := x]) == VdpBytes(l, b)[VdpPlace(l, i) := x]
    ensures i >= l.bo ==> VdpBytes(l, b[i := x]) == VdpBytes(l, b)
  {
  }

  lemma PlaceBus(l: Layout, b: seq<byte>, i: nat, x: byte)
    requires Sound(l) && l.size <= |b| && i < |b|
    ensures l.bo <= i < l.zo ==> BusBytes(l, b)[i - l.bo] == b[i]
                                 && BusBytes(l, b[i := x]) == BusBytes(l, b)[i - l.bo := x]
    ensures !(l.bo <= i < l.zo) ==> BusBytes(l, b[i := x]) == BusBytes(l, b)
  {
  }

  /** A one-byte difference in the machine image shows in the digest of the partition that owns the
      byte and in no other. */
  lemma {:induction false} DigestNamesTheChip(l: Layout, b: seq<byte>, d: Digests, i: nat, x: byte)
    requires Sound(l) && l.size <= |b| && i < |b| && x != b[i]
    ensures var u, v := MachineDigest(l, b, d), MachineDigest(l, b[i := x], d);
            && (u.vdp != v.vdp <==> i < l.bo)
            && (u.bus != v.bus <==> l.bo <= i < l.zo)
            && (u.z80 != v.z80 <==> l.zo <= i)
  {
    PlaceVdp(l, b, i, x);
    PlaceBus(l, b, i, x);
    if i < l.bo {
      F.OneByteShows(d.vdp, VdpBytes(l, b), VdpPlace(l, i), x);
      assert b[i := x][l.zo..] == b[l.zo..];
    } else if i < l.zo {
      F.OneByteShows(d.bus, BusBytes(l, b), i - l.bo, x);
      assert b[i := x][l.zo..] == b[l.zo..];
    } else {
      F.OneByteShows(d.z80, b[l.zo..], i - l.zo, x);
      assert b[i := x][l.zo..] == b[l.zo..][i - l.zo := x];
    }
  }
}
