/** The secret container: a byte buffer that can be disclosed in full or
    masked, that expires lazily after an optional time-to-live, that a
    volatile cell gives up after one successful read, and that is zeroed on
    explicit disposal, on leaving a `with` block and on destruction.

    Time is a parameter: `now` and `birth` are readings of a monotonic clock
    in nanoseconds, and a TTL is held, as a `Duration` is, in nanoseconds.
    "Wiped" is not a separate flag: a cell is empty exactly when no byte of
    its buffer is non-zero. */
module Cell {
  import opened Utf8

  datatype Option<T> = None | Some(value: T)

  /** What a Python caller sees: a value, or a `ValueError` with its message. */
  datatype Result<T> = Ok(value: T) | Err(message: string)

  const NanosPerSecond: nat := 1_000_000_000

  const TtlExpired: string := "TTL expired"
  const EmptyWiped: string := "Cell is empty/wiped."
  const EmptyMasked: string := "Cell is empty"
  const Redacted: string := "<CypherCell: [REDACTED]>"

  /** The emptiness test of both disclosure paths: every byte is zero.
      A zero-length buffer is empty too. */
  predicate IsEmpty(bytes: seq<byte>): (r: bool)
    ensures bytes == [] ==> r
    ensures r <==> bytes == seq(|bytes|, _ => 0)
  {
    forall i :: 0 <= i < |bytes| ==> bytes[i] == 0
  }

  /** The effect of zeroizing a buffer of `n` bytes. */
  function Zeroed(n: nat): (z: seq<byte>)
    ensures |z| == n && IsEmpty(z)
  {
    seq(n, _ => 0)
  }

  /** `Duration::from_secs` over an optional TTL given in whole seconds. */
  function TtlFromSeconds(ttlSec: Option<nat>): (ttl: Option<nat>)
    ensures ttl.Some? <==> ttlSec.Some?
    ensures ttl.Some? ==>
      ttl.value % NanosPerSecond == 0 && ttl.value / NanosPerSecond == ttlSec.value
  {
    match ttlSec
    case None => None
    case Some(s) => Some(s * NanosPerSecond)
  }

  /** Time since `birth`; a monotonic clock never reads earlier, and a reading
      that did would saturate to zero. */
  function Elapsed(birth: nat, now: nat): (e: nat)
    ensures birth <= now ==> birth + e == now
    ensures now <= birth ==> e == 0
  {
    if now > birth then now - birth else 0
  }

  /** A cell with a TTL has expired once strictly more than the TTL has elapsed. */
  predicate HasExpired(birth: nat, ttl: Option<nat>, now: nat): (r: bool)
    ensures r <==> ttl.Some? && now > birth + ttl.value
  {
    ttl.Some? && Elapsed(birth, now) > ttl.value
  }

  /** What one full disclosure returns and what it leaves in the buffer. */
  datatype Disclosure = Disclosure(result: Result<string>, inner: seq<byte>)

  /** The disclosure rule. The TTL is checked first (an expired cell is wiped
      and reports expiry even when already empty), then emptiness, then the
      buffer is decoded, and a volatile cell is wiped after a successful read. */
  function RevealRule(inner: seq<byte>, volatile: bool, birth: nat, ttl: Option<nat>, now: nat): (d: Disclosure)
    ensures d.result.Ok? <==> !HasExpired(birth, ttl, now) && !IsEmpty(inner)
    ensures d.result.Ok? ==> d.result.value == Decode(inner)
    ensures d.result.Err? ==>
      d.result.message == if HasExpired(birth, ttl, now) then TtlExpired else EmptyWiped
    ensures d.inner ==
      if HasExpired(birth, ttl, now) || (volatile && d.result.Ok?) then Zeroed(|inner|) else inner
  {
    if HasExpired(birth, ttl, now) then Disclosure(Err(TtlExpired), Zeroed(|inner|))
    else if IsEmpty(inner) then Disclosure(Err(EmptyWiped), inner)
    else
      var secret := Decode(inner);
      Disclosure(Ok(secret), if volatile then Zeroed(|inner|) else inner)
  }

  /** How many leading bytes a masked disclosure hides. */
  function MaskedCount(len: nat, suffixLen: nat): nat {
    if suffixLen >= len then 0 else len - suffixLen
  }

  /** `"*".repeat(n)` */
  function Stars(n: nat): (s: string)
    ensures |s| == n && forall i :: 0 <= i < n ==> s[i] == '*'
  {
    seq(n, _ => '*')
  }

  predicate OccursAt(s: string, t: string, i: nat) {
    i + |t| <= |s| && s[i..i + |t|] == t
  }

  /** `t in s` for Python strings. */
  ghost predicate Contains(s: string, t: string) {
    exists i: nat :: OccursAt(s, t, i)
  }

  class CypherCell {
    var inner: seq<byte>
    const volatile: bool
    const birth: nat
    const ttl: Option<nat>

    /** Stores a copy of `data` (a Dafny sequence is a value, so the caller's
        buffer and the cell's are independent) without validating it. */
    constructor (data: seq<byte>, volatile: bool, ttlSec: Option<nat>, now: nat)
      ensures inner == data && this.volatile == volatile
      ensures birth == now && ttl == TtlFromSeconds(ttlSec)
    {
      inner := data;
      this.volatile := volatile;
      birth := now;
      ttl := TtlFromSeconds(ttlSec);
    }

    /** Zeroizes the buffer: no non-zero byte remains. Never fails. */
    method Wipe()
      modifies this
      ensures inner == Zeroed(|old(inner)|)
      ensures IsEmpty(old(inner)) ==> inner == old(inner)
    {
      inner := Zeroed(|inner|);
    }

    /** `__exit__`: leaving a `with` block, by any path, wipes the cell. */
    method Exit()
      modifies this
      ensures inner == Zeroed(|old(inner)|)
      ensures IsEmpty(old(inner)) ==> inner == old(inner)
    {
      Wipe();
    }

    /** `Drop::drop`: destruction wipes the cell. */
    method Drop()
      modifies this
      ensures inner == Zeroed(|old(inner)|)
      ensures IsEmpty(old(inner)) ==> inner == old(inner)
    {
      Wipe();
    }

    method Reveal(now: nat) returns (r: Result<string>)
      modifies this
      ensures Disclosure(r, inner) == RevealRule(old(inner), volatile, birth, ttl, now)
    {
      if ttl.Some? {
        var limit := ttl.value;
        if Elapsed(birth, now) > limit {
          Wipe();
          return Err(TtlExpired);
        }
      }
      if IsEmpty(inner) {
        return Err(EmptyWiped);
      }
      var secret := Decode(inner);
      if volatile {
        Wipe();
      }
      return Ok(secret);
    }

    /** Masked disclosure: all but the last `suffixLen` BYTES become `*`, and
        the visible tail is decoded on its own. Neither the TTL nor the
        volatile flag is consulted, and the cell is not changed. */
    function RevealMasked(suffixLen: nat): (r: Result<string>)
      reads this
      ensures r.Err? <==> IsEmpty(inner)
      ensures r.Err? ==> r.message == EmptyMasked
      ensures r.Ok? ==> |r.value| <= |inner|
      ensures r.Ok? ==>
        var k := MaskedCount(|inner|, suffixLen);
        k <= |r.value|
        && (forall i :: 0 <= i < k ==> r.value[i] == '*')
        && r.value[k..] == Decode(inner[k..])
    {
      if IsEmpty(inner) then Err(EmptyMasked)
      else
        var len := |inner|;
        if suffixLen >= len then Ok(Decode(inner))
        else Ok(Stars(len - suffixLen) + Decode(inner[len - suffixLen..]))
    }

    /** `__repr__`. It reads no field, so it cannot depend on the buffer. */
    function Repr(): (r: string)
      ensures Contains(r, "[REDACTED]")
    {
      assert OccursAt(Redacted, "[REDACTED]", 13);
      Redacted
    }
  }

  /** Every cell, in every state, has the same representation. */
  lemma ReprIsConstant(a: CypherCell, b: CypherCell)
    ensures a.Repr() == b.Repr()
  {
  }

  lemma ElapsedMonotone(birth: nat, t1: nat, t2: nat)
    requires t1 <= t2
    ensures Elapsed(birth, t1) <= Elapsed(birth, t2)
  {
  }

  /** A successful read of a non-volatile cell leaves the buffer alone, so a
      later read that is still within the TTL returns the same text. */
  lemma NonVolatileRevealIsRepeatable(inner: seq<byte>, birth: nat, ttl: Option<nat>, t1: nat, t2: nat)
    requires RevealRule(inner, false, birth, ttl, t1).result.Ok?
    requires !HasExpired(birth, ttl, t2)
    ensures var d := RevealRule(inner, false, birth, ttl, t1);
      d.inner == inner && RevealRule(d.inner, false, birth, ttl, t2) == d
  {
  }

  /** A successful read of a volatile cell empties it: every later read fails,
      as empty, or as expired once the TTL has passed. */
  lemma VolatileRevealConsumes(inner: seq<byte>, birth: nat, ttl: Option<nat>, t1: nat, t2: nat)
    requires RevealRule(inner, true, birth, ttl, t1).result.Ok?
    ensures var d := RevealRule(inner, true, birth, ttl, t1);
      IsEmpty(d.inner) && |d.inner| == |inner|
      && RevealRule(d.inner, true, birth, ttl, t2).result
         == Err(if HasExpired(birth, ttl, t2) then TtlExpired else EmptyWiped)
  {
  }

  /** Expiry is permanent and takes precedence over emptiness: once a read
      finds the TTL passed, the cell is wiped and every later read reports
      expiry again, never "empty". */
  lemma ExpiryIsPermanent(inner: seq<byte>, volatile: bool, birth: nat, ttl: Option<nat>, t1: nat, t2: nat)
    requires HasExpired(birth, ttl, t1) && t1 <= t2
    ensures var d := RevealRule(inner, volatile, birth, ttl, t1);
      d.result == Err(TtlExpired) && IsEmpty(d.inner)
      && HasExpired(birth, ttl, t2)
      && RevealRule(d.inner, volatile, birth, ttl, t2) == Disclosure(Err(TtlExpired), d.inner)
  {
    ElapsedMonotone(birth, t1, t2);
  }

  /** Nothing un-wipes a cell: a read of an empty buffer fails and leaves it empty. */
  lemma WipedIsTerminal(inner: seq<byte>, volatile: bool, birth: nat, ttl: Option<nat>, now: nat)
    requires IsEmpty(inner)
    ensures var d := RevealRule(inner, volatile, birth, ttl, now);
      d.result.Err? && IsEmpty(d.inner) && |d.inner| == |inner|
  {
  }

  /** Zeroizing changes a buffer exactly when some byte is non-zero, so
      zeroizing a zeroed buffer changes nothing. */
  lemma WipeIsIdempotent(bytes: seq<byte>)
    ensures Zeroed(|bytes|) == bytes <==> IsEmpty(bytes)
    ensures Zeroed(|Zeroed(|bytes|)|) == Zeroed(|bytes|)
  {
  }

  /** Both disclosure paths see only whether the buffer is all zero, so how
      long a wiped buffer is (zeroize may also truncate it) cannot be observed. */
  lemma EmptyBuffersIndistinguishable(a: CypherCell, b: CypherCell, now: nat, suffixLen: nat)
    requires IsEmpty(a.inner) && IsEmpty(b.inner)
    requires a.volatile == b.volatile && a.birth == b.birth && a.ttl == b.ttl
    ensures RevealRule(a.inner, a.volatile, a.birth, a.ttl, now).result
         == RevealRule(b.inner, b.volatile, b.birth, b.ttl, now).result
    ensures a.RevealMasked(suffixLen) == b.RevealMasked(suffixLen) == Err(EmptyMasked)
  {
  }

  /** Masked disclosure depends on the buffer alone: not on the TTL, the clock
      or the volatile flag. */
  lemma MaskedIgnoresLifecycle(a: CypherCell, b: CypherCell, suffixLen: nat)
    requires a.inner == b.inner
    ensures a.RevealMasked(suffixLen) == b.RevealMasked(suffixLen)
  {
  }

  /** On an ASCII secret, masking is exact: as many characters as bytes, the
      first `len - suffixLen` of them `*`, the rest the secret's own. */
  lemma MaskedAscii(c: CypherCell, suffixLen: nat)
    requires IsAscii(c.inner) && !IsEmpty(c.inner)
    ensures c.RevealMasked(suffixLen).Ok?
    ensures var r, k := c.RevealMasked(suffixLen).value, MaskedCount(|c.inner|, suffixLen);
      |r| == |c.inner|
      && (forall i :: 0 <= i < k ==> r[i] == '*')
      && (forall i :: k <= i < |r| ==> r[i] as int == c.inner[i] as int)
  {
    var k := MaskedCount(|c.inner|, suffixLen);
    var tail := c.inner[k..];
    assert IsAscii(tail) by {
      forall i | 0 <= i < |tail| ensures tail[i] < 0x80 {
        assert tail[i] == c.inner[k + i];
      }
    }
    DecodeAscii(tail);
    var r := c.RevealMasked(suffixLen).value;
    forall i | k <= i < |r| ensures r[i] as int == c.inner[i] as int {
      assert r[i] == r[k..][i - k];
    }
  }

  /** A text secret is indistinguishable from a wiped cell exactly when it
      holds nothing but NUL characters (the empty text included). */
  lemma {:induction false} EncodedSecretIsEmpty(s: string)
    ensures IsEmpty(Encode(s)) <==> forall i :: 0 <= i < |s| ==> s[i] == '\0'
  {
    if s != [] {
      var e, rest := EncodeChar(s[0]), Encode(s[1..]);
      assert Encode(s) == e + rest;
      EncodedSecretIsEmpty(s[1..]);
      if s[0] == '\0' {
        assert e == [0];
        assert forall i :: 0 <= i < |rest| ==> Encode(s)[i + 1] == rest[i];
        assert IsEmpty(Encode(s)) <==> IsEmpty(rest);
        assert (forall i :: 0 <= i < |s| ==> s[i] == '\0')
           <==> (forall i :: 0 <= i < |s[1..]| ==> s[1..][i] == '\0');
      } else {
        assert Encode(s)[0] != 0;
      }
    }
  }
}
