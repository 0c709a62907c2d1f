/** The repository's test scenarios, plus further masking and
    double-disposal scenarios, as clients of the cell, proved from its
    contracts and function definitions. A secret is the UTF-8 encoding of a
    text (for ASCII text, the Python `bytes` literal). Most scenarios are
    stated for every text that does not start with NUL, which covers every
    literal the tests use; a few are fixed examples. */
module CellTests {
  import opened Utf8
  import opened Cell

  /** A text secret that does not start with NUL is stored non-empty and
      read back as itself. */
  lemma TextSecret(s: string)
    requires s != [] && s[0] != '\0'
    ensures !IsEmpty(Encode(s)) && Decode(Encode(s)) == s
  {
    EncodedSecretIsEmpty(s);
    DecodeEncode(s);
  }

  /** Reads are non-destructive by default. */
  method BasicReveal(s: string, t0: nat, t1: nat, t2: nat) returns (first: Result<string>, second: Result<string>)
    requires s != [] && s[0] != '\0'
    ensures first == Ok(s) && second == first
  {
    TextSecret(s);
    var cell := new CypherCell(Encode(s), false, None, t0);
    first := cell.Reveal(t1);
    second := cell.Reveal(t2);
  }

  /** A volatile cell gives its secret once; the next read finds it empty. */
  method VolatileMode(s: string, t0: nat, t1: nat, t2: nat) returns (first: Result<string>, second: Result<string>)
    requires s != [] && s[0] != '\0'
    ensures first == Ok(s) && second == Err(EmptyWiped)
  {
    TextSecret(s);
    var cell := new CypherCell(Encode(s), true, None, t0);
    first := cell.Reveal(t1);
    second := cell.Reveal(t2);
  }

  /** A one-second TTL: a read within that second of creation succeeds, a read
      1.1 s after creation fails as expired, and so does every read after that. */
  method TtlExpiration(s: string, t0: nat, t1: nat) returns (early: Result<string>, late: Result<string>, later: Result<string>)
    requires s != [] && s[0] != '\0'
    requires t1 <= t0 + NanosPerSecond
    ensures early == Ok(s) && late == Err(TtlExpired) && later == Err(TtlExpired)
  {
    TextSecret(s);
    var cell := new CypherCell(Encode(s), false, Some(1), t0);
    early := cell.Reveal(t1);
    late := cell.Reveal(t0 + 1_100_000_000);
    later := cell.Reveal(t0 + 1_200_000_000);
  }

  /** The code's expiry message is not the one the TTL test looks for, so
      that test's `match` cannot succeed against it. */
  lemma ExpiryMessageDiffersFromTest()
    ensures !Contains(TtlExpired, "Cell has expired")
  {
  }

  /** Leaving the `with` block wipes the cell. */
  method ContextManager(s: string, t0: nat, t1: nat, t2: nat) returns (inside: Result<string>, after: Result<string>)
    requires s != [] && s[0] != '\0'
    ensures inside == Ok(s) && after == Err(EmptyWiped)
  {
    TextSecret(s);
    var cell := new CypherCell(Encode(s), false, None, t0);
    inside := cell.Reveal(t1);
    cell.Exit();
    after := cell.Reveal(t2);
  }

  /** A text whose first character does not occur in `s` is not part of `s`. */
  lemma AbsentFirstChar(s: string, t: string)
    requires t != [] && forall j :: 0 <= j < |s| ==> s[j] != t[0]
    ensures !Contains(s, t)
  {
    forall i: nat ensures !OccursAt(s, t, i) {
      if i + |t| <= |s| {
        assert s[i..i + |t|][0] == s[i];
      }
    }
  }

  /** Whatever the cell holds, the test's password included, the
      representation carries the redaction marker and not the password. */
  method ReprSecurity(data: seq<byte>, t0: nat) returns (representation: string)
    ensures Contains(representation, "[REDACTED]")
    ensures !Contains(representation, "my-private-password")
  {
    var cell := new CypherCell(data, false, None, t0);
    representation := cell.Repr();
    assert representation == Redacted;
    AbsentFirstChar(Redacted, "my-private-password");
  }

  /** Destruction leaves no non-zero byte behind. */
  method DeleteWipes(s: string, t0: nat) returns (remaining: seq<byte>)
    ensures IsEmpty(remaining) && |remaining| == |Encode(s)|
  {
    var cell := new CypherCell(Encode(s), false, None, t0);
    cell.Drop();
    remaining := cell.inner;
  }

  /** Masking a secret `head + tail`, with ASCII `head` and as many visible
      bytes as `tail` encodes to, shows one `*` per character of `head`, then
      `tail` itself. */
  method MaskKeepsTail(head: string, tail: string, t0: nat) returns (masked: Result<string>)
    requires tail != [] && tail[0] != '\0'
    requires forall i :: 0 <= i < |head| ==> head[i] as int < 0x80
    ensures masked == Ok(Stars(|head|) + tail)
  {
    TextSecret(tail);
    EncodeAppend(head, tail);
    EncodeAscii(head);
    var cell := new CypherCell(Encode(head + tail), false, None, t0);
    assert cell.inner[|head|..] == Encode(tail);
    assert !IsEmpty(cell.inner) by {
      var j :| 0 <= j < |Encode(tail)| && Encode(tail)[j] != 0;
      assert cell.inner[|head| + j] == Encode(tail)[j];
    }
    masked := cell.RevealMasked(|Encode(tail)|);
    var r := masked.value;
    assert r == r[..|head|] + r[|head|..];
    assert r[..|head|] == Stars(|head|);
  }

  /** A visible suffix at least as long as the secret masks nothing. */
  method MaskNothing(s: string, suffixLen: nat, t0: nat) returns (unmasked: Result<string>)
    requires s != [] && s[0] != '\0'
    requires suffixLen >= |Encode(s)|
    ensures unmasked == Ok(s)
  {
    TextSecret(s);
    var cell := new CypherCell(Encode(s), false, None, t0);
    unmasked := cell.RevealMasked(suffixLen);
  }

  /** Two fixed masking examples: "supersecret" with four visible bytes,
      and "allvisible" with twenty. */
  method MaskedExamples(t0: nat) returns (masked: Result<string>, unmasked: Result<string>)
    ensures masked == Ok("*******cret")
    ensures unmasked == Ok("allvisible")
  {
    masked := MaskKeepsTail("superse", "cret", t0);
    assert Stars(7) + "cret" == "*******cret";
    EncodeAscii("allvisible");
    unmasked := MaskNothing("allvisible", 20, t0);
  }

  /** Disposing of a consumed volatile cell, twice, raises nothing, and it stays empty. */
  method DoubleWipe(s: string, t0: nat, t1: nat, t2: nat) returns (first: Result<string>, second: Result<string>)
    requires s != [] && s[0] != '\0'
    ensures first == Ok(s) && second == Err(EmptyWiped)
  {
    TextSecret(s);
    var cell := new CypherCell(Encode(s), true, None, t0);
    first := cell.Reveal(t1);
    cell.Exit();
    cell.Exit();
    second := cell.Reveal(t2);
  }

  /** Masking counts bytes, not characters: the visible tail of a two-byte
      character is its second byte alone, which decodes as U+FFFD, and the
      character's first byte is counted as a masked position. */
  lemma MaskCountsBytes(c: CypherCell)
    requires c.inner == Encode("p\U{E9}")
    ensures c.RevealMasked(1) == Ok("**" + [Replacement])
  {
    assert c.inner == [0x70, 0xC3, 0xA9];
    assert c.inner[0] != 0;
    assert Decode(c.inner[2..]) == [Replacement];
    assert Stars(2) == "**";
  }
}
