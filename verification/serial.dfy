/** The COM1 serial port (kernel/src/arch/x86_64/serial.rs). The line
    status register is read as a sequence of given values, one per poll;
    what goes out of the data register is a byte sequence. The UART
    programming in `init` is not modelled. */
module Serial {
  import opened Common

  const LF: byte := 0x0A
  const CR: byte := 0x0D

  /** LSR bit 5: the transmit holding register is empty. */
  predicate TransmitEmpty(lsr: bv8) { lsr & 0x20 != 0 }

  /** LSR bit 0: a received byte is waiting. */
  predicate HasData(lsr: bv8) { lsr & 0x01 != 0 }

  /** `read_byte`: one status read, then the data register only if it says
      a byte is there. */
  function ReadByte(lsr: bv8, data: byte): (r: Option<byte>)
    ensures r.Some? <==> lsr & 0x01 == 0x01
    ensures r.Some? ==> r.value == data
  {
    if HasData(lsr) then Some(data) else None
  }

  /** `write_byte`: polls the status until the transmitter is empty, then
      sends. Given the status values the polls would read, the result is
      how many polls it took, or `None` when none of them reports empty
      (the loop would still be spinning). */
  method WriteByte(polls: seq<bv8>) returns (waited: Option<nat>)
    ensures waited.Some? ==> waited.value < |polls| && TransmitEmpty(polls[waited.value])
    ensures waited.Some? ==> forall i :: 0 <= i < waited.value ==> !TransmitEmpty(polls[i])
    ensures waited.None? ==> forall i :: 0 <= i < |polls| ==> !TransmitEmpty(polls[i])
  {
    var i := 0;
    while i < |polls|
      invariant 0 <= i <= |polls|
      invariant forall j :: 0 <= j < i ==> !TransmitEmpty(polls[j])
    {
      if TransmitEmpty(polls[i]) {
        return Some(i);
      }
      i := i + 1;
    }
    return None;
  }

  /** The bytes `write_string` sends for `s`: a carriage return goes out
      before every line feed. */
  function Expand(s: seq<byte>): (o: seq<byte>)
    ensures o != [] ==> o[0] != LF
  {
    if s == [] then []
    else (if s[0] == LF then [CR, LF] else [s[0]]) + Expand(s[1..])
  }

  /** The inverse: a carriage return directly before a line feed is
      dropped. */
  function Contract(o: seq<byte>): seq<byte>
  {
    if o == [] then []
    else if |o| >= 2 && o[0] == CR && o[1] == LF then [LF] + Contract(o[2..])
    else [o[0]] + Contract(o[1..])
  }

  /** Dropping the inserted carriage returns gives the input back, even
      when the input already held a carriage return before a line feed. */
  lemma {:induction false} ContractExpand(s: seq<byte>)
    ensures Contract(Expand(s)) == s
  {
    if s != [] {
      var rest := Expand(s[1..]);
      ContractExpand(s[1..]);
      if s[0] == LF {
        assert Expand(s) == [CR, LF] + rest;
        assert (Expand(s))[2..] == rest;
      } else {
        assert Expand(s) == [s[0]] + rest;
        assert (Expand(s))[1..] == rest;
        assert !(|rest| >= 1 && rest[0] == LF);
      }
    }
  }

  /** The output is one byte longer than the input for every line feed. */
  lemma {:induction false} ExpandLength(s: seq<byte>)
    ensures |Expand(s)| == |s| + Count(s, LF)
  {
    if s != [] {
      ExpandLength(s[1..]);
      assert s == [s[0]] + s[1..];
      CountCons(s[0], s[1..], LF);
    }
  }

  lemma CountCons(x: byte, s: seq<byte>, y: byte)
    ensures Count([x] + s, y) == Count(s, y) + (if x == y then 1 else 0)
  {
    assert ([x] + s)[1..] == s;
  }

  /** Every line feed that goes out is preceded by a carriage return. */
  lemma {:induction false} LineFeedsFollowReturns(s: seq<byte>)
    ensures forall i :: 0 <= i < |Expand(s)| && Expand(s)[i] == LF ==> i > 0 && Expand(s)[i - 1] == CR
  {
    if s != [] {
      LineFeedsFollowReturns(s[1..]);
      var h := if s[0] == LF then [CR, LF] else [s[0]];
      var rest := Expand(s[1..]);
      assert Expand(s) == h + rest;
      forall i | 0 <= i < |h + rest| && (h + rest)[i] == LF
        ensures i > 0 && (h + rest)[i - 1] == CR
      {
        if i >= |h| {
          assert (h + rest)[i] == rest[i - |h|];
        }
      }
    }
  }
}
