/** The 24-byte nonce counter and the cipher it drives. */
module Nonces {
  import opened Bytes

  const NONCE_BYTES: nat := 24
  const CLIENT_SERVER_NONCE_MSB: byte := 0
  const SERVER_CLIENT_NONCE_MSB: byte := 1

  /**
   * One symmetric key: `seal` and `open` under a given nonce. Every theorem is about every
   * sound cipher, so the build without libsodium (payloads left as they are) is one instance.
   */
  datatype Cipher = Cipher(seal: (nat, bytes) -> bytes, open: (nat, bytes) -> Option<bytes>)

  ghost predicate Sound(c: Cipher) {
    forall n: nat, p: bytes :: c.open(n, c.seal(n, p)) == Some(p)
  }

  /** Authenticated encryption: a box opens under no nonce but its own. */
  ghost predicate Authentic(c: Cipher) {
    && Sound(c)
    && forall n: nat, m: nat, p: bytes :: n != m ==> c.open(m, c.seal(n, p)) == None
  }

  function Pow256(n: nat): nat
    ensures Pow256(n) >= 1
  {
    if n == 0 then 1 else 256 * Pow256(n - 1)
  }

  /** The number a byte array holds, least significant byte first. */
  function Value(a: bytes): nat {
    if a == [] then 0 else a[0] + 256 * Value(a[1..])
  }

  lemma {:induction false} ValueAppend(a: bytes, b: bytes)
    ensures Value(a + b) == Value(a) + Pow256(|a|) * Value(b)
  {
    if a == [] {
      assert a + b == b;
    } else {
      ValueAppend(a[1..], b);
      assert (a + b)[1..] == a[1..] + b;
      MulAssociates(256, Pow256(|a| - 1), Value(b));
    }
  }

  lemma {:induction false} ValueOfRun(a: bytes)
    ensures (forall i :: 0 <= i < |a| ==> a[i] == 0) ==> Value(a) == 0
    ensures (forall i :: 0 <= i < |a| ==> a[i] == 255) ==> Value(a) == Pow256(|a|) - 1
  {
    if a != [] {
      ValueOfRun(a[1..]);
    }
  }

  lemma {:induction false} ValueBound(a: bytes)
    ensures Value(a) < Pow256(|a|)
  {
    if a != [] {
      ValueBound(a[1..]);
    }
  }

  lemma MulAssociates(x: int, y: int, z: int)
    ensures x * (y * z) == (x * y) * z
  {
  }

  lemma MulDistributes(x: int, y: int, z: int)
    ensures x * (y + z) == x * y + x * z
  {
  }

  lemma MulGap(a: int, b: int, m: nat)
    requires a < b
    ensures a * m + m <= b * m
  {
    var d := b - a - 1;
    MulDistributes(m, a + 1, d);
    MulDistributes(m, a, 1);
    assert b == (a + 1) + d;
    assert m * d >= 0;
  }

  /** The weight of the top byte, and the number of nonces. */
  const NONCE_TOP: nat := Pow256(NONCE_BYTES - 1)
  const NONCE_SPACE: nat := 256 * NONCE_TOP

  function NextNonce(n: nat): nat {
    (n + 1) % NONCE_SPACE
  }

  /** The nonce after n messages in the direction whose top byte starts at `msb`. */
  function NonceAt(msb: byte, n: nat): nat {
    if n == 0 then msb as int * NONCE_TOP else NextNonce(NonceAt(msb, n - 1))
  }

  lemma {:induction false} NonceAtClosedForm(msb: byte, n: nat)
    ensures NonceAt(msb, n) == (msb as int * NONCE_TOP + n) % NONCE_SPACE
  {
    if n == 0 {
      StartInSpace(msb, NONCE_TOP);
    } else {
      NonceAtClosedForm(msb, n - 1);
      ModSuccessor(msb as int * NONCE_TOP + n - 1, NONCE_SPACE);
    }
  }

  lemma StartInSpace(msb: byte, top: nat)
    requires top > 0
    ensures (msb as int * top) % (256 * top) == msb as int * top
  {
    MulGap(msb as int, 256, top);
    ModUnique(msb as int * top, 0, msb as int * top, 256 * top);
  }

  lemma {:induction false} ModSuccessor(x: nat, m: nat)
    requires m > 0
    ensures (x % m + 1) % m == (x + 1) % m
  {
    var q := x / m;
    assert x == q * m + x % m;
    if x % m + 1 == m {
      assert x + 1 == (q + 1) * m;
      ModUnique(x + 1, q + 1, 0, m);
    } else {
      assert x + 1 == q * m + (x % m + 1);
      ModUnique(x + 1, q, x % m + 1, m);
      ModUnique(x % m + 1, 0, x % m + 1, m);
    }
  }

  lemma {:induction false} ModUnique(x: nat, q: nat, r: nat, m: nat)
    requires r < m && x == q * m + r
    ensures x % m == r
  {
    var q', r' := x / m, x % m;
    assert x == q' * m + r';
    if q' < q {
      MulGap(q', q, m);
      assert false;
    } else if q' > q {
      MulGap(q, q', m);
      assert false;
    }
  }

  /** Within one direction, two messages share a nonce exactly when a whole cycle lies between. */
  lemma {:induction false} NonceReuseWithinDirection(msb: byte, i: nat, j: nat)
    requires i <= j
    ensures NonceAt(msb, i) == NonceAt(msb, j) <==> (j - i) % NONCE_SPACE == 0
  {
    NonceAtClosedForm(msb, i);
    NonceAtClosedForm(msb, j);
    ModDifference(msb as int * NONCE_TOP, i, j, NONCE_SPACE);
  }

  lemma {:induction false} ModDifference(base: nat, i: nat, j: nat, m: nat)
    requires m > 0 && i <= j
    ensures (base + i) % m == (base + j) % m <==> (j - i) % m == 0
  {
    if (base + i) % m == (base + j) % m {
      SameResidue(base + i, base + j, m);
    }
    if (j - i) % m == 0 {
      WholeCycles(base + i, j - i, m);
    }
  }

  lemma {:induction false} SameResidue(x: nat, y: nat, m: nat)
    requires m > 0 && x <= y && x % m == y % m
    ensures (y - x) % m == 0
  {
    var qx, qy, r := x / m, y / m, x % m;
    assert x == qx * m + r && y == qy * m + r;
    if qx > qy {
      MulGap(qy, qx, m);
      assert false;
    }
    assert (qy - qx) * m == qy * m - qx * m;
    ModUnique(y - x, qy - qx, 0, m);
  }

  lemma {:induction false} WholeCycles(x: nat, d: nat, m: nat)
    requires m > 0 && d % m == 0
    ensures (x + d) % m == x % m
  {
    var q, k, r := x / m, d / m, x % m;
    assert x == q * m + r && d == k * m;
    assert (q + k) * m == q * m + k * m;
    ModUnique(x + d, q + k, r, m);
  }

  /**
   * The two directions stay apart for 256^23 messages each (counting from 1: the counter is
   * bumped before each use), and not for one more.
   */
  lemma {:induction false} NoncesAcrossDirections(i: nat, j: nat)
    requires 1 <= i && 1 <= j
    ensures i <= NONCE_TOP && j <= NONCE_TOP
            ==> NonceAt(CLIENT_SERVER_NONCE_MSB, i) != NonceAt(SERVER_CLIENT_NONCE_MSB, j)
    ensures i == NONCE_TOP + 1 && j == 1
            ==> NonceAt(CLIENT_SERVER_NONCE_MSB, i) == NonceAt(SERVER_CLIENT_NONCE_MSB, j)
  {
    NonceAtClosedForm(0, i);
    NonceAtClosedForm(1, j);
    HalvesApart(i, j, NONCE_TOP);
  }

  /** Message i of the client and message j of the server share a nonce in these cases only. */
  lemma {:induction false} NonceReuseAcrossDirections(i: nat, j: nat)
    ensures NonceAt(CLIENT_SERVER_NONCE_MSB, i) == NonceAt(SERVER_CLIENT_NONCE_MSB, j)
       <==> (if i <= NONCE_TOP + j then NONCE_TOP + j - i else i - NONCE_TOP - j) % NONCE_SPACE == 0
  {
    NonceAtClosedForm(0, i);
    NonceAtClosedForm(1, j);
    if i <= NONCE_TOP + j {
      ModDifference(0, i, NONCE_TOP + j, NONCE_SPACE);
    } else {
      ModDifference(0, NONCE_TOP + j, i, NONCE_SPACE);
    }
  }

  lemma {:induction false} HalvesApart(i: nat, j: nat, top: nat)
    requires 1 <= i && 1 <= j && top > 0
    ensures i <= top && j <= top ==> i % (256 * top) != (top + j) % (256 * top)
    ensures i == top + 1 && j == 1 ==> i % (256 * top) == (top + j) % (256 * top)
  {
    if i <= top && j <= top {
      ModUnique(i, 0, i, 256 * top);
      ModUnique(top + j, 0, top + j, 256 * top);
    }
  }

  /** One direction's cipher state: the key and its nonce counter, advanced before each use. */
  class CryptoHandler {
    const cipher: Cipher
    const nonce: array<byte>

    ghost predicate Valid()
      reads this, nonce
    {
      nonce.Length == NONCE_BYTES
    }

    ghost function Nonce(): nat
      reads this, nonce
      requires Valid()
    {
      Value(nonce[..])
    }

    constructor (cipher: Cipher, msb: byte)
      ensures Valid() && fresh(nonce)
      ensures this.cipher == cipher && Nonce() == NonceAt(msb, 0)
    {
      this.cipher := cipher;
      nonce := new byte[NONCE_BYTES](_ => 0);
      new;
      nonce[NONCE_BYTES - 1] := msb;
      assert nonce[..] == nonce[..NONCE_BYTES - 1] + [msb];
      ValueAppend(nonce[..NONCE_BYTES - 1], [msb]);
      ValueOfRun(nonce[..NONCE_BYTES - 1]);
      assert Value([msb]) == msb + 256 * Value([]);
    }

    method IncrementNonce()
      requires Valid()
      modifies nonce
      ensures Valid() && Nonce() == NextNonce(old(Nonce()))
    {
      var i := 0;
      ghost var was := nonce[..];
      var carry := true;
      while i < nonce.Length && carry
        invariant 0 <= i <= NONCE_BYTES
        invariant carry ==> forall k :: 0 <= k < i ==> was[k] == 255 && nonce[k] == 0
        invariant nonce[i..] == was[i..]
        invariant !carry ==> 0 < i && was[i - 1] < 255 && nonce[i - 1] as int == was[i - 1] as int + 1
        invariant !carry ==> forall k :: 0 <= k < i - 1 ==> was[k] == 255 && nonce[k] == 0
      {
        assert nonce[i] == nonce[i..][0] == was[i];
        nonce[i] := (nonce[i] as int + 1) % 256;
        if nonce[i] != 0 {
          carry := false;
        }
        i := i + 1;
        assert nonce[i..] == was[i..];
      }
      CarryAdds(was, nonce[..], if carry then i else i - 1);
    }

    method Encrypt(plain: bytes) returns (box: bytes)
      requires Valid()
      modifies nonce
      ensures Valid() && Nonce() == NextNonce(old(Nonce()))
      ensures box == cipher.seal(Nonce(), plain)
    {
      IncrementNonce();
      var n := Peek();
      box := cipher.seal(n, plain);
    }

    /** None is the "decrypt failed" exception. The counter has moved in either case. */
    method Decrypt(box: bytes) returns (plain: Option<bytes>)
      requires Valid()
      modifies nonce
      ensures Valid() && Nonce() == NextNonce(old(Nonce()))
      ensures plain == cipher.open(Nonce(), box)
    {
      IncrementNonce();
      var n := Peek();
      plain := cipher.open(n, box);
    }

    /** The nonce as the cipher reads it. */
    method Peek() returns (n: nat)
      requires Valid()
      ensures n == Nonce()
    {
      n := Value(nonce[..]);
    }
  }

  /** Zeroing i full bytes and adding one to the next is adding one to the number. */
  lemma {:induction false} CarryAdds(was: bytes, now: bytes, i: nat)
    requires |was| == |now| == NONCE_BYTES && i <= NONCE_BYTES
    requires forall k :: 0 <= k < i ==> was[k] == 255 && now[k] == 0
    requires i < NONCE_BYTES ==> was[i] < 255 && now[i] as int == was[i] as int + 1 && now[i + 1..] == was[i + 1..]
    ensures Value(now) == NextNonce(Value(was))
  {
    Carry(was, now, i, NONCE_SPACE);
  }

  lemma {:induction false} Carry(was: bytes, now: bytes, i: nat, space: nat)
    requires |was| == |now| && i <= |was| && space == Pow256(|was|)
    requires forall k :: 0 <= k < i ==> was[k] == 255 && now[k] == 0
    requires i < |was| ==> was[i] < 255 && now[i] as int == was[i] as int + 1 && now[i + 1..] == was[i + 1..]
    ensures Value(now) == (Value(was) + 1) % space
  {
    if i < |was| {
      CarryStops(was, now, i);
      ValueBound(now);
      ModUnique(Value(was) + 1, 0, Value(was) + 1, space);
    } else {
      ValueOfRun(was);
      ValueOfRun(now);
      ModUnique(space, 1, 0, space);
    }
  }

  lemma {:induction false} CarryStops(was: bytes, now: bytes, i: nat)
    requires |was| == |now| && i < |was|
    requires forall k :: 0 <= k < i ==> was[k] == 255 && now[k] == 0
    requires was[i] < 255 && now[i] as int == was[i] as int + 1 && now[i + 1..] == was[i + 1..]
    ensures Value(now) == Value(was) + 1
  {
    assert was == was[..i] + was[i..] && now == now[..i] + now[i..];
    ValueAppend(was[..i], was[i..]);
    ValueAppend(now[..i], now[i..]);
    ValueOfRun(was[..i]);
    ValueOfRun(now[..i]);
    assert was[i..][1..] == was[i + 1..] && now[i..][1..] == now[i + 1..];
    MulDistributes(Pow256(i), Value(was[i..]), 1);
  }
}
