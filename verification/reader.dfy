/** The bounds-checked cursor of src/handlers/thales/reader.rs, and what each of its reads
    takes off the front of the remaining payload. */
module Reader {
  import opened Bytes
  import Framing

  // ------------------------------------------------- reads on the remaining bytes

  function TakeFrom(rest: bytes, n: nat): (r: Result<(bytes, bytes)>)
    ensures r.Ok? <==> n <= |rest|
    ensures r.Ok? ==> r.value.0 + r.value.1 == rest && |r.value.0| == n
    ensures r.Err? ==> r.error == MalformedPayload
  {
    if n <= |rest| then Ok((rest[..n], rest[n..])) else Err(MalformedPayload)
  }

  function ByteFrom(rest: bytes): (r: Result<(byte, bytes)>)
    ensures r.Ok? <==> rest != []
    ensures r.Ok? ==> [r.value.0] + r.value.1 == rest
    ensures r.Err? ==> r.error == MalformedPayload
  {
    if rest == [] then Err(MalformedPayload) else Ok((rest[0], rest[1..]))
  }

  function ExpectFrom(rest: bytes, expected: byte): (r: Result<bytes>)
    ensures r.Ok? <==> rest != [] && rest[0] == expected
    ensures r.Ok? ==> [expected] + r.value == rest
    ensures r.Err? ==> r.error == MalformedPayload
  {
    if rest == [] || rest[0] != expected then Err(MalformedPayload) else Ok(rest[1..])
  }

  function U16From(rest: bytes): Result<(nat, bytes)> {
    var (pair, after) :- TakeFrom(rest, 2);
    Ok((Framing.U16(pair[0], pair[1]), after))
  }

  /** An ASCII length field, then `unit` bytes for each counted one. */
  function CountedFrom(rest: bytes, width: nat, radix: Radix, unit: nat): (r: Result<(bytes, bytes)>)
    ensures r.Err? ==> r.error == MalformedPayload
  {
    var (digits, after) :- TakeFrom(rest, width);
    match ParseUsize(digits, radix)
    case None => Err(MalformedPayload)
    case Some(n) => TakeFrom(after, n * unit)
  }

  /** A sub-parser reports its value and how many of the remaining bytes it used. */
  type Sub<T> = bytes -> Result<(T, nat)>

  ghost predicate Within<T>(sub: Sub<T>, rest: bytes) {
    sub(rest).Ok? ==> sub(rest).value.1 <= |rest|
  }

  function SubFrom<T>(sub: Sub<T>, rest: bytes): (r: Result<(T, bytes)>)
    requires Within(sub, rest)
  {
    var (value, used) :- sub(rest);
    Ok((value, rest[used..]))
  }

  /** A read's value without the bytes it leaves. */
  function Value<T>(r: Result<(T, bytes)>): Result<T> {
    if r.Ok? then Ok(r.value.0) else Err(r.error)
  }

  // ---------------------------------------------- reads on printed fields

  lemma TakePrinted()
    ensures forall field: bytes, tail: bytes, n: nat {:trigger TakeFrom(field + tail, n)} ::
              n == |field| ==> TakeFrom(field + tail, n) == Ok((field, tail))
  {
    forall field: bytes, tail: bytes ensures TakeFrom(field + tail, |field|) == Ok((field, tail)) {
    }
  }

  lemma BytePrinted()
    ensures forall b: byte, tail: bytes {:trigger ByteFrom([b] + tail)} ::
              ByteFrom([b] + tail) == Ok((b, tail))
    ensures forall b: byte, tail: bytes {:trigger ExpectFrom([b] + tail, b)} ::
              ExpectFrom([b] + tail, b) == Ok(tail)
  {
  }

  /** A length field is any spelling of the length: four hex digits of either case, or three
      after a '+'. */
  predicate Spells(digits: bytes, width: nat, radix: Radix, n: nat) {
    |digits| == width && ParseUsize(digits, radix) == Some(n)
  }

  lemma CountedPrinted()
    ensures forall digits: bytes, field: bytes, tail: bytes, width: nat, radix: Radix, unit: nat
              {:trigger CountedFrom(digits + (field + tail), width, radix, unit)} ::
              |digits| == width && ParseUsize(digits, radix).Some?
              && ParseUsize(digits, radix).value * unit == |field|
              ==> CountedFrom(digits + (field + tail), width, radix, unit) == Ok((field, tail))
  {
    TakePrinted();
  }

  lemma CountedExact(rest: bytes, width: nat, radix: Radix, unit: nat) returns (digits: bytes)
    requires CountedFrom(rest, width, radix, unit).Ok?
    ensures |digits| == width && ParseUsize(digits, radix).Some?
    ensures var (field, tail) := CountedFrom(rest, width, radix, unit).value;
            ParseUsize(digits, radix).value * unit == |field| && rest == digits + (field + tail)
  {
    digits := rest[..width];
  }

  // ------------------------------------ reads that succeed ignore what follows

  lemma TakeStable(rest: bytes, n: nat, more: bytes)
    requires TakeFrom(rest, n).Ok?
    ensures TakeFrom(rest + more, n) == Ok((TakeFrom(rest, n).value.0, TakeFrom(rest, n).value.1 + more))
  {
    assert (rest + more)[..n] == rest[..n] && (rest + more)[n..] == rest[n..] + more;
  }

  lemma ByteStable(rest: bytes, more: bytes)
    requires ByteFrom(rest).Ok?
    ensures ByteFrom(rest + more) == Ok((ByteFrom(rest).value.0, ByteFrom(rest).value.1 + more))
  {
    assert (rest + more)[1..] == rest[1..] + more;
  }

  lemma CountedStable(rest: bytes, width: nat, radix: Radix, unit: nat, more: bytes)
    requires CountedFrom(rest, width, radix, unit).Ok?
    ensures var (field, tail) := CountedFrom(rest, width, radix, unit).value;
            CountedFrom(rest + more, width, radix, unit) == Ok((field, tail + more))
  {
    var (digits, after) := TakeFrom(rest, width).value;
    TakeStable(rest, width, more);
    TakeStable(after, ParseUsize(digits, radix).value * unit, more);
  }

  // ------------------------------------------------------------- the cursor

  class FieldReader {
    const buf: bytes
    var pos: nat

    ghost predicate Valid()
      reads this
    {
      pos <= |buf|
    }

    /** What the next read will see: the payload from the cursor on. */
    function Rest(): bytes
      requires Valid()
      reads this
    {
      buf[pos..]
    }

    constructor (payload: bytes)
      ensures Valid() && buf == payload && pos == 0 && Rest() == payload
    {
      buf := payload;
      pos := 0;
    }

    /** A failed take leaves the cursor in place. */
    method Take(n: nat) returns (r: Result<bytes>)
      requires Valid()
      modifies this`pos
      ensures Valid() && old(pos) <= pos
      ensures r == Value(TakeFrom(old(Rest()), n))
      ensures r.Ok? ==> Rest() == TakeFrom(old(Rest()), n).value.1 && pos == old(pos) + n
      ensures r.Err? ==> pos == old(pos)
    {
      if pos + n > |buf| {
        return Err(MalformedPayload);
      }
      assert Rest()[..n] == buf[pos..pos + n] && Rest()[n..] == buf[pos + n..];
      r := Ok(buf[pos..pos + n]);
      pos := pos + n;
    }

    method Byte() returns (r: Result<byte>)
      requires Valid()
      modifies this`pos
      ensures Valid() && old(pos) <= pos
      ensures r == Value(ByteFrom(old(Rest())))
      ensures r.Ok? ==> Rest() == ByteFrom(old(Rest())).value.1
      ensures r.Err? ==> pos == old(pos)
    {
      var one :- Take(1);
      r := Ok(one[0]);
    }

    /** Unlike a failed take, a mismatch has already consumed the byte. */
    method ExpectByte(expected: byte) returns (r: Result<()>)
      requires Valid()
      modifies this`pos
      ensures Valid() && old(pos) <= pos
      ensures r.Ok? <==> ExpectFrom(old(Rest()), expected).Ok?
      ensures r.Ok? ==> Rest() == ExpectFrom(old(Rest()), expected).value
      ensures r.Err? ==> r.error == MalformedPayload
                         && pos == old(pos) + (if old(Rest()) == [] then 0 else 1)
    {
      var b :- Byte();
      if b != expected {
        return Err(MalformedPayload);
      }
      r := Ok(());
    }

    method U16() returns (r: Result<nat>)
      requires Valid()
      modifies this`pos
      ensures Valid() && old(pos) <= pos
      ensures r == Value(U16From(old(Rest())))
      ensures r.Ok? ==> Rest() == U16From(old(Rest())).value.1
    {
      var pair :- Take(2);
      r := Ok(Framing.U16(pair[0], pair[1]));
    }

    method Counted(width: nat, radix: Radix, unit: nat) returns (r: Result<bytes>)
      requires Valid()
      modifies this`pos
      ensures Valid() && old(pos) <= pos
      ensures r == Value(CountedFrom(old(Rest()), width, radix, unit))
      ensures r.Ok? ==> Rest() == CountedFrom(old(Rest()), width, radix, unit).value.1
    {
      var digits :- Take(width);
      var n := ParseUsize(digits, radix);
      if n.None? {
        return Err(MalformedPayload);
      }
      r := Take(n.value * unit);
    }

    /** Run a sub-parser at the cursor. It must not claim more bytes than remain. */
    method ParseWith<T>(sub: Sub<T>) returns (r: Result<T>)
      requires Valid() && Within(sub, Rest())
      modifies this`pos
      ensures Valid() && old(pos) <= pos
      ensures r == Value(SubFrom(sub, old(Rest())))
      ensures r.Ok? ==> Rest() == SubFrom(sub, old(Rest())).value.1
    {
      var outcome := sub(buf[pos..]);
      if outcome.Err? {
        return Err(outcome.error);
      }
      assert Rest()[outcome.value.1..] == buf[pos + outcome.value.1..];
      pos := pos + outcome.value.1;
      r := Ok(outcome.value.0);
    }
  }
}
