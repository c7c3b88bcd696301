/**
 Profile obfuscation: RC4 in place over a body that carries its own keyed digest, and back.
 The digest (HMAC-SHA1 cut to 16 bytes) is a parameter.
 */
module Obfuscate {
  import opened Common

  const DIGEST_LEN: nat := 0x10
  const CONFOUNDER_LEN: nat := 8

  /** The RC4 permutation table. */
  type Box = s: seq<bv8> | |s| == 256 witness seq(256, _ => 0 as bv8)

  function Byte(n: nat): bv8
    requires n < 256
  {
    n as bv8
  }

  function Identity(): Box {
    seq(256, i requires 0 <= i < 256 => Byte(i))
  }

  /** A key; the source indexes it modulo its length, so it is never empty. */
  type Key = k: seq<bv8> | |k| > 0 witness [0]

  function Swap(s: Box, i: nat, j: nat): (r: Box)
    requires i < 256 && j < 256
  {
    s[i := s[j]][j := s[i]]
  }

  function Value(b: bv8): nat {
    b as nat
  }

  // ------------------------------------------------------------------- the cipher

  datatype Rc4 = Rc4(s: Box, i: nat, j: nat)

  /** The key, repeated for as long as it takes. */
  function KeyAt(key: Key, n: nat): bv8 {
    key[n % |key|]
  }

  function ScheduleStep(key: Key, st: Rc4): Rc4
    requires st.i < 256
  {
    var j := (st.j + Value(st.s[st.i]) + Value(KeyAt(key, st.i))) % 256;
    Rc4(Swap(st.s, st.i, j), st.i + 1, j)
  }

  /** The table after `n` steps of the key schedule. */
  function Schedule(key: Key, n: nat): (st: Rc4)
    requires n <= 256
    ensures st.i == n
  {
    if n == 0 then Rc4(Identity(), 0, 0) else ScheduleStep(key, Schedule(key, n - 1))
  }

  function NextState(st: Rc4): Rc4 {
    var i := (st.i + 1) % 256;
    var j := (st.j + Value(st.s[i])) % 256;
    Rc4(Swap(st.s, i, j), i, j)
  }

  function Output(st: Rc4): bv8
    requires st.i < 256 && st.j < 256
  {
    st.s[(Value(st.s[st.i]) + Value(st.s[st.j])) % 256]
  }

  /** The generator after `n` key bytes; it depends on the key alone. */
  function After(key: Key, n: nat): Rc4 {
    if n == 0 then Rc4(Schedule(key, 256).s, 0, 0) else NextState(After(key, n - 1))
  }

  function KeyByte(key: Key, n: nat): bv8 {
    Output(After(key, n + 1))
  }

  function Xored(key: Key, data: seq<bv8>): (r: seq<bv8>)
    ensures |r| == |data| && forall i :: 0 <= i < |data| ==> r[i] == data[i] ^ KeyByte(key, i)
  {
    seq(|data|, i requires 0 <= i < |data| => data[i] ^ KeyByte(key, i))
  }

  /** RC4 is its own inverse for every key and every data. */
  lemma XoredTwice(key: Key, data: seq<bv8>)
    ensures Xored(key, Xored(key, data)) == data
  {
    hide KeyByte;
    forall i | 0 <= i < |data| ensures Xored(key, Xored(key, data))[i] == data[i] {
    }
  }

  /** The table holds every byte value once. */
  ghost predicate IsPermutation(s: Box) { multiset(s) == multiset(Identity()) }

  /** Throughout the key schedule and the whole key stream the table stays a permutation. */
  lemma {:induction false} SchedulePermutes(key: Key, n: nat)
    requires n <= 256
    ensures IsPermutation(Schedule(key, n).s)
  {
    if n > 0 {
      SchedulePermutes(key, n - 1);
      var st := Schedule(key, n - 1);
    }
  }

  lemma {:induction false} StreamPermutes(key: Key, n: nat)
    ensures IsPermutation(After(key, n).s)
  {
    hide IsPermutation, NextState;
    if n == 0 {
      SchedulePermutes(key, 256);
    } else {
      StreamPermutes(key, n - 1);
      NextPermutes(After(key, n - 1));
      StreamUnfolds(key, n - 1);
    }
  }

  lemma NextPermutes(st: Rc4)
    requires IsPermutation(st.s)
    ensures IsPermutation(NextState(st).s)
  {
    var i := (st.i + 1) % 256;
  }

  // ------------------------------------------------------------ the key stream

  /** The key decides: where two keys first differ, their schedules part. */
  lemma KeysPart(a: Key, b: Key, n: nat)
    requires n < 256 && Schedule(a, n) == Schedule(b, n) && a[n % |a|] != b[n % |b|]
    ensures Schedule(a, n + 1).j != Schedule(b, n + 1).j
  {
    hide Schedule, Swap, Value, Identity, Byte;
    var st := Schedule(a, n);
    ScheduleUnfolds(a, n);
    ScheduleUnfolds(b, n);
    SameValue(a[n % |a|], b[n % |b|]);
    Shifted(st.j + Value(st.s[n]), Value(a[n % |a|]), Value(b[n % |b|]));
  }

  lemma SameValue(a: bv8, b: bv8)
    ensures Value(a) == Value(b) ==> a == b
    ensures Value(a) < 256 && Value(b) < 256
  {
  }

  lemma Shifted(base: nat, a: nat, b: nat)
    requires a < 256 && b < 256 && a != b
    ensures (base + a) % 256 != (base + b) % 256
  {
  }

  /** A key of 256 bytes whose schedule is easy to follow: after the first step it exchanges nothing. */
  function StillKey(first: bv8): Key {
    seq(256, i requires 0 <= i < 256 => if i == 0 then first else Byte((257 - i) % 256))
  }

  /** With first byte 0 the schedule leaves the table as it was, with 1 it exchanges the first two entries. */
  lemma {:induction false} StillSchedule(first: bv8, n: nat)
    requires first <= 1 && 2 <= n <= 256
    ensures Schedule(StillKey(first), n) == Rc4(if first == 0 then Identity() else Swap(Identity(), 0, 1), n, n - 1)
  {
    if n == 2 {
      StillStart(first);
    } else {
      StillSchedule(first, n - 1);
      ScheduleUnfolds(StillKey(first), n - 1);
      StillStep(first, n - 1);
    }
  }

  lemma StillStart(first: bv8)
    requires first <= 1
    ensures Schedule(StillKey(first), 2) == Rc4(if first == 0 then Identity() else Swap(Identity(), 0, 1), 2, 1)
  {
    var key, table := StillKey(first), Identity();
    ScheduleUnfolds(key, 0);
    ScheduleUnfolds(key, 1);
    assert KeyAt(key, 0) == first && KeyAt(key, 1) == 0;
    assert Swap(table, 0, 0) == table && Swap(table, 1, 1) == table;
    assert Swap(Swap(table, 0, 1), 1, 1) == Swap(table, 0, 1);
  }

  lemma StillStep(first: bv8, n: nat)
    requires 2 <= n < 256
    ensures var table := if first == 0 then Identity() else Swap(Identity(), 0, 1);
            ScheduleStep(StillKey(first), Rc4(table, n, n - 1)) == Rc4(table, n + 1, n)
  {
    hide Byte, Value, KeyAt, StillKey;
    var table := if first == 0 then Identity() else Swap(Identity(), 0, 1);
    Entry(n);
    StillKeyAt(first, n);
    SwapSame(table, n);
    assert table[n] == Identity()[n];
  }

  lemma Entry(k: nat)
    requires k < 256
    ensures Value(Identity()[k]) == k
  {
    hide Byte, Value;
    ByteValue(k);
  }

  lemma ByteValue(n: nat)
    requires n < 256
    ensures Value(Byte(n)) == n
  {
    assert n % 256 == n;
  }

  lemma StillKeyAt(first: bv8, n: nat)
    requires 2 <= n < 256
    ensures Value(KeyAt(StillKey(first), n)) == 257 - n
  {
    StillKeyHas(first, n);
    hide Byte, Value, KeyAt, StillKey;
    ByteValue(257 - n);
  }

  lemma StillKeyHas(first: bv8, n: nat)
    requires 2 <= n < 256
    ensures KeyAt(StillKey(first), n) == Byte(257 - n)
  {
    hide Byte;
    var key := StillKey(first);
    Wraps(n);
    assert key[n] == Byte((257 - n) % 256);
  }

  lemma Wraps(n: nat)
    requires 2 <= n < 256
    ensures n % 256 == n && (257 - n) % 256 == 257 - n
  {
  }

  lemma SwapSame(s: Box, n: nat)
    requires n < 256
    ensures Swap(s, n, n) == s
  {
  }

  /** One turn of the generator, by the two values it adds up. */
  lemma Turned(s: Box, i: nat, j: nat, v: nat, w: nat)
    requires i < 255 && j < 256 && Value(s[i + 1]) == v && Value(s[(j + v) % 256]) == w
    ensures var next := Rc4(Swap(s, i + 1, (j + v) % 256), i + 1, (j + v) % 256);
            NextState(Rc4(s, i, j)) == next && Output(next) == next.s[(v + w) % 256]
  {
    hide Value;
  }

  /** The first bytes of that key's stream, as RC4 has them. */
  lemma StillStream()
    ensures Value(KeyByte(StillKey(0), 0)) == 2 && Value(KeyByte(StillKey(0), 1)) == 5
    ensures Value(KeyByte(StillKey(0), 2)) == 7 && Value(KeyByte(StillKey(0), 3)) == 13
  {
    hide *;
    var key := StillKey(0);
    StillSchedule(0, 256);
    StreamUnfolds(key, 0);
    StreamUnfolds(key, 1);
    StreamUnfolds(key, 2);
    StreamUnfolds(key, 3);
    FourTurns();
  }

  lemma FourTurns()
    ensures var first := NextState(Rc4(Identity(), 0, 0));
            var second := NextState(first);
            var third := NextState(second);
            var fourth := NextState(third);
            && first.i < 256 && first.j < 256 && Value(Output(first)) == 2
            && second.i < 256 && second.j < 256 && Value(Output(second)) == 5
            && third.i < 256 && third.j < 256 && Value(Output(third)) == 7
            && fourth.i < 256 && fourth.j < 256 && Value(Output(fourth)) == 13
  {
    hide Value, NextState, Output, Identity;
    var s := Identity();
    Entry(1);
    Entry(2);
    Entry(3);
    Entry(4);
    Entry(5);
    Entry(7);
    Entry(9);
    Entry(13);
    SwapSame(s, 1);
    var s2 := Swap(s, 2, 3);
    var s3 := Swap(s2, 3, 5);
    Turned(s, 0, 0, 1, 1);
    Turned(s, 1, 1, 2, 3);
    Turned(s2, 2, 3, 2, 5);
    Turned(s3, 3, 5, 4, 9);
  }

  /** `s.swap(i, j)`. */
  method SwapInPlace(s: array<bv8>, i: nat, j: nat)
    requires s.Length == 256 && i < 256 && j < 256
    modifies s
    ensures s[..] == Swap(old(s[..]), i, j)
  {
    s[i], s[j] := s[j], s[i];
  }

  /** The key schedule. */
  method ScheduleKey(key: Key) returns (s: array<bv8>)
    ensures fresh(s) && s.Length == 256 && s[..] == Schedule(key, 256).s
  {
    hide Swap, Schedule, ScheduleStep, Byte;
    s := new bv8[256](i => Byte(if 0 <= i < 256 then i else 0));
    assert s[..] == Identity();
    ScheduleUnfolds(key, 0);
    var j: nat := 0;
    for n := 0 to 256
      invariant s.Length == 256 && fresh(s) && Schedule(key, n) == Rc4(s[..], n, j)
    {
      ScheduleUnfolds(key, n);
      j := Mix(s, n, j, key);
    }
  }

  /** One turn of the key schedule. */
  method Mix(s: array<bv8>, n: nat, jIn: nat, key: Key) returns (j: nat)
    requires s.Length == 256 && n < 256
    modifies s
    ensures Rc4(s[..], n + 1, j) == ScheduleStep(key, Rc4(old(s[..]), n, jIn))
  {
    hide Swap, KeyAt, Value;
    j := (jIn + Value(s[n]) + Value(KeyAt(key, n))) % 256;
    SwapInPlace(s, n, j);
  }

  /** One turn of the generator: the table and both indices move on, and a key byte comes out. */
  method Generate(s: array<bv8>, iIn: nat, jIn: nat) returns (i: nat, j: nat, out: bv8)
    requires s.Length == 256
    modifies s
    ensures i < 256 && j < 256 && Rc4(s[..], i, j) == NextState(Rc4(old(s[..]), iIn, jIn))
    ensures out == Output(Rc4(s[..], i, j))
  {
    hide Swap, Value;
    i := (iIn + 1) % 256;
    j := (jIn + Value(s[i])) % 256;
    SwapInPlace(s, i, j);
    out := s[(Value(s[i]) + Value(s[j])) % 256];
  }

  /** `rc4_xor_in_place`. */
  method Rc4XorInPlace(data: array<bv8>, key: Key)
    modifies data
    ensures data[..] == Xored(key, old(data[..]))
  {
    hide Output, KeyByte, Schedule, After, NextState;
    var s := ScheduleKey(key);
    StreamUnfolds(key, 0);
    var i: nat, j: nat, k := 0, 0, 0;
    while k < data.Length
      invariant 0 <= k <= data.Length && s.Length == 256 && fresh(s)
      invariant After(key, k) == Rc4(s[..], i, j)
      invariant forall m :: 0 <= m < k ==> data[m] == old(data[m]) ^ KeyByte(key, m)
      invariant forall m :: k <= m < data.Length ==> data[m] == old(data[m])
    {
      StreamUnfolds(key, k);
      var out;
      i, j, out := Generate(s, i, j);
      data[k] := data[k] ^ out;
      k := k + 1;
    }
  }

  lemma ScheduleUnfolds(key: Key, n: nat)
    requires n < 256
    ensures Schedule(key, 0) == Rc4(Identity(), 0, 0)
    ensures Schedule(key, n + 1) == ScheduleStep(key, Schedule(key, n))
  {
  }

  lemma StreamUnfolds(key: Key, n: nat)
    ensures After(key, 0) == Rc4(Schedule(key, 256).s, 0, 0)
    ensures After(key, n + 1) == NextState(After(key, n))
    ensures KeyByte(key, n) == Output(After(key, n + 1))
  {
  }

  // ------------------------------------------------------------------- the wrapper

  ghost predicate SixteenBytes(hmac: (seq<bv8>, seq<bv8>) -> seq<bv8>) {
    forall key, data :: |hmac(key, data)| == DIGEST_LEN
  }

  /** A keyed digest of 16 bytes. */
  type Digest = hmac: (seq<bv8>, seq<bv8>) -> seq<bv8> | SixteenBytes(hmac) witness (_, _) => seq(DIGEST_LEN, _ => 0)

  /** The wire form of a confounder and a plaintext: the body's digest, then the body under RC4. */
  function Wire(hmac: Digest, key: seq<bv8>, confounder: seq<bv8>, plaintext: seq<bv8>): seq<bv8> {
    var body := confounder + plaintext;
    hmac(key, body) + Xored(hmac(key, hmac(key, body)), body)
  }

  /** What the wire form yields, if its digest fits. */
  function Opened(hmac: Digest, key: seq<bv8>, wire: seq<bv8>): Option<seq<bv8>> {
    if |wire| < DIGEST_LEN + CONFOUNDER_LEN then None
    else
      var body := Xored(hmac(key, wire[..DIGEST_LEN]), wire[DIGEST_LEN..]);
      if hmac(key, body) != wire[..DIGEST_LEN] then None else Some(body[CONFOUNDER_LEN..])
  }

  /** `obfuscate`, with its random bytes as an argument. */
  method Obfuscate(hmac: Digest, key: seq<bv8>, confounder: seq<bv8>, plaintext: seq<bv8>) returns (wire: seq<bv8>)
    requires |confounder| == CONFOUNDER_LEN
    ensures wire == Wire(hmac, key, confounder, plaintext)
  {
    var all := confounder + plaintext;
    var body := new bv8[|all|](i requires 0 <= i < |all| => all[i]);
    assert body[..] == all;
    var headerKey := hmac(key, body[..]);
    var rc4Key := hmac(key, headerKey);
    Rc4XorInPlace(body, rc4Key);
    wire := headerKey + body[..];
  }

  /** `unobfuscate`. */
  method Unobfuscate(hmac: Digest, key: seq<bv8>, encrypted: seq<bv8>) returns (plaintext: Option<seq<bv8>>)
    ensures plaintext == Opened(hmac, key, encrypted)
  {
    if |encrypted| < 0x18 {
      return None;
    }
    var baseKey := encrypted[..DIGEST_LEN];
    var rest := encrypted[DIGEST_LEN..];
    var body := new bv8[|rest|](i requires 0 <= i < |rest| => rest[i]);
    assert body[..] == rest;
    var rc4Key := hmac(key, baseKey);
    Rc4XorInPlace(body, rc4Key);
    if hmac(key, body[..]) != baseKey {
      return None;
    }
    plaintext := Some(body[CONFOUNDER_LEN..]);
  }

  /** The wire form, byte for byte: 16 bytes of digest, then the body under the key made from that digest. */
  lemma WireBytes(hmac: Digest, key: seq<bv8>, confounder: seq<bv8>, plaintext: seq<bv8>)
    requires |confounder| == 8
    ensures var wire := Wire(hmac, key, confounder, plaintext);
            && |wire| == 24 + |plaintext| && wire[..16] == hmac(key, confounder + plaintext)
            && (forall i :: 0 <= i < 8 ==> wire[16 + i] == confounder[i] ^ KeyByte(hmac(key, wire[..16]), i))
            && forall i :: 0 <= i < |plaintext| ==> wire[24 + i] == plaintext[i] ^ KeyByte(hmac(key, wire[..16]), 8 + i)
  {
    hide KeyByte, Byte, Identity;
    var body := confounder + plaintext;
    assert forall i :: 0 <= i < |plaintext| ==> body[8 + i] == plaintext[i];
  }

  /** Every plaintext comes back, whatever the confounder. */
  lemma RoundTrip(hmac: Digest, key: seq<bv8>, confounder: seq<bv8>, plaintext: seq<bv8>)
    requires |confounder| == CONFOUNDER_LEN
    ensures Opened(hmac, key, Wire(hmac, key, confounder, plaintext)) == Some(plaintext)
  {
    hide Xored;
    var body := confounder + plaintext;
    var wire := Wire(hmac, key, confounder, plaintext);
    var digest := hmac(key, body);
    assert wire[..DIGEST_LEN] == digest && wire[DIGEST_LEN..] == Xored(hmac(key, digest), body);
    XoredTwice(hmac(key, digest), body);
    assert body[CONFOUNDER_LEN..] == plaintext;
  }

  /** Nothing else is accepted: what opens is the wire form of what it opens to. */
  lemma OpensOnlyWires(hmac: Digest, key: seq<bv8>, wire: seq<bv8>, plaintext: seq<bv8>)
    ensures Opened(hmac, key, wire) == Some(plaintext)
       <==> exists confounder :: |confounder| == CONFOUNDER_LEN && wire == Wire(hmac, key, confounder, plaintext)
  {
    hide Xored;
    if confounder :| |confounder| == CONFOUNDER_LEN && wire == Wire(hmac, key, confounder, plaintext) {
      RoundTrip(hmac, key, confounder, plaintext);
    }
    if Opened(hmac, key, wire) == Some(plaintext) {
      var digest, sealed := wire[..DIGEST_LEN], wire[DIGEST_LEN..];
      var body := Xored(hmac(key, digest), sealed);
      XoredTwice(hmac(key, digest), sealed);
      assert body == body[..CONFOUNDER_LEN] + plaintext;
      assert wire == digest + sealed;
      assert wire == Wire(hmac, key, body[..CONFOUNDER_LEN], plaintext);
    }
  }
}
