/**
 The remaining length of an MQTT message, section 2.2.3 of MQTT 3.1.1: seven bits to a byte, the lowest first, with
 the upper bit set in all bytes but the last.
 */
module MqttSize {
  import opened Bytes

  /** MQTT_MAX_MESSAGE_SIZE */
  const MAX_MESSAGE_SIZE: nat := 0x7FFF_FFFF

  function SizeBytes(n: nat): (s: seq<byte>)
    ensures s != []
  {
    if n < 128 then [n] else [n % 128 + 128] + SizeBytes(n / 128)
  }

  function Value(s: seq<byte>): nat {
    if s == [] then 0 else s[0] % 128 + 128 * Value(s[1..])
  }

  /** A complete length field: only the last byte has its upper bit clear. */
  ghost predicate Complete(s: seq<byte>) {
    s != [] && s[|s| - 1] < 128 && forall i :: 0 <= i < |s| - 1 ==> s[i] >= 128
  }

  function Power(k: nat): (p: nat)
    ensures p >= 1
  {
    if k == 0 then 1 else 128 * Power(k - 1)
  }

  lemma {:induction false} SizeBytesComplete(n: nat)
    ensures Complete(SizeBytes(n)) && Value(SizeBytes(n)) == n
  {
    if n >= 128 {
      SizeBytesComplete(n / 128);
      assert SizeBytes(n)[1..] == SizeBytes(n / 128);
    }
  }

  lemma {:induction false} ValueBound(s: seq<byte>)
    ensures Value(s) < Power(|s|)
  {
    if s != [] {
      ValueBound(s[1..]);
    }
  }

  lemma {:induction false} SizeBytesLength(n: nat)
    ensures |SizeBytes(n)| > 1 ==> n >= Power(|SizeBytes(n)| - 1)
  {
    if n >= 128 {
      SizeBytesLength(n / 128);
    }
  }

  lemma {:induction false} PowerMonotone(j: nat, k: nat)
    requires j <= k
    ensures Power(j) <= Power(k)
  {
    if j < k {
      PowerMonotone(j, k - 1);
    }
  }

  /** No length field with that value is shorter. */
  lemma {:induction false} Shortest(n: nat, s: seq<byte>)
    requires Complete(s) && Value(s) == n
    ensures |SizeBytes(n)| <= |s|
  {
    ValueBound(s);
    SizeBytesLength(n);
    if |s| < |SizeBytes(n)| {
      PowerMonotone(|s|, |SizeBytes(n)| - 1);
    }
  }

  /** Four bytes are enough exactly for the sizes below 2^28. */
  lemma {:induction false} FourBytes(n: nat)
    ensures |SizeBytes(n)| <= 4 <==> n < 0x1000_0000
  {
    SizeBytesLength(n);
    SizeBytesComplete(n);
    ValueBound(SizeBytes(n));
    assert Power(4) == 0x1000_0000 by {
      assert Power(2) == 16384;
    }
    if |SizeBytes(n)| <= 4 {
      PowerMonotone(|SizeBytes(n)|, 4);
    } else {
      PowerMonotone(4, |SizeBytes(n)| - 1);
    }
  }

  lemma {:induction false} ValueAppend(s: seq<byte>, x: byte)
    ensures Value(s + [x]) == Value(s) + x % 128 * Power(|s|)
  {
    if s == [] {
      assert s + [x] == [x];
    } else {
      assert (s + [x])[1..] == s[1..] + [x];
      ValueAppend(s[1..], x);
      Associate(x % 128, Power(|s| - 1));
    }
  }

  lemma Associate(a: nat, p: nat)
    ensures 128 * (a * p) == a * (128 * p)
  {
  }

  /** set_size, writing behind the first byte of a header at `at` */
  method SetSize(buffer: array<byte>, at: nat, messageSize: nat) returns (count: nat)
    requires messageSize < MAX_MESSAGE_SIZE ==> at + 1 + |SizeBytes(messageSize)| <= buffer.Length
    modifies buffer
    ensures count == if messageSize < MAX_MESSAGE_SIZE then |SizeBytes(messageSize)| else 0
    ensures at + 1 + count <= buffer.Length || count == 0
    ensures count > 0 ==> buffer[at + 1..at + 1 + count] == SizeBytes(messageSize)
    ensures forall i :: 0 <= i < buffer.Length && !(at + 1 <= i < at + 1 + count) ==> buffer[i] == old(buffer[i])
  {
    count := 0;
    if messageSize < MAX_MESSAGE_SIZE {
      var rest := messageSize;
      while true
        invariant at + 1 + count < buffer.Length
        invariant buffer[at + 1..at + 1 + count] + SizeBytes(rest) == SizeBytes(messageSize)
        invariant forall i :: 0 <= i < buffer.Length && !(at + 1 <= i < at + 1 + count) ==> buffer[i] == old(buffer[i])
        decreases rest
      {
        var encodedByte: byte := rest % 128;
        ghost var before, was := buffer[at + 1..at + 1 + count], rest;
        rest := rest / 128;
        if rest > 0 {
          encodedByte := encodedByte + 128;
        }
        buffer[at + 1 + count] := encodedByte;
        count := count + 1;
        assert buffer[at + 1..at + 1 + count] == before + [encodedByte];
        if rest == 0 {
          break;
        }
        assert before + ([encodedByte] + SizeBytes(rest)) == (before + [encodedByte]) + SizeBytes(rest);
      }
    }
  }

  /** The length field ends within the input, or has the five bytes of which the last is refused. */
  ghost predicate Readable(input: seq<byte>) {
    |input| >= 6 || exists k :: 1 <= k < |input| && input[k] < 128
  }

  datatype Size = Size(value: nat, next: nat) | Invalid

  /** get_size: at most four bytes behind the first byte of the header; `next` is where they end */
  method GetSize(input: seq<byte>) returns (r: Size)
    requires Readable(input)
    ensures r.Invalid? <==> |input| >= 6 && forall k :: 1 <= k < 5 ==> input[k] >= 128
    ensures r.Size? ==>
      && 2 <= r.next <= 5 && r.next <= |input|
      && Complete(input[1..r.next]) && r.value == Value(input[1..r.next]) < 0x1000_0000
  {
    var multiplier: nat, value: nat, cnt: nat := 1, 0, 1;
    while true
      invariant 1 <= cnt <= 5 && cnt <= |input| && multiplier == Power(cnt - 1) && value == Value(input[1..cnt])
      invariant forall k :: 1 <= k < cnt ==> input[k] >= 128
      decreases 5 - cnt
    {
      var aByte := input[cnt];
      ValueAppend(input[1..cnt], aByte);
      assert input[1..cnt + 1] == input[1..cnt] + [aByte];
      cnt := cnt + 1;
      value := value + aByte as nat % 128 * multiplier;
      PowersUpTo4();
      if multiplier > 128 * 128 * 128 {
        return Invalid;
      }
      multiplier := multiplier * 128;
      if aByte < 128 {
        break;
      }
    }
    ValueBound(input[1..cnt]);
    PowersUpTo4();
    if MAX_MESSAGE_SIZE < value {
      return Invalid;
    }
    r := Size(value, cnt);
  }

  lemma PowersUpTo4()
    ensures Power(0) == 1 && Power(1) == 128 && Power(2) == 16384 && Power(3) == 2097152 && Power(4) == 268435456
  {
    assert Power(1) == 128 && Power(2) == 16384;
  }

  /** Two complete fields at the start of the same bytes are the same field. */
  lemma SameField(s: seq<byte>, a: nat, b: nat)
    requires 1 <= a <= |s| && 1 <= b <= |s| && Complete(s[..a]) && Complete(s[..b])
    ensures a == b
  {
    assert forall i :: 0 <= i < a ==> s[..a][i] == s[i];
    assert forall i :: 0 <= i < b ==> s[..b][i] == s[i];
    assert s[a - 1] == s[..a][a - 1] && s[b - 1] == s[..b][b - 1];
  }
}
