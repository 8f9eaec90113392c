/** The field extraction of `get_page_faults` (src/lib.rs) over the bytes read
    from the process-status file: split on single spaces, skip nine fields,
    parse the minor-fault count, skip one field, parse the major-fault count,
    and return their sum. */
module PageFaults {
  import opened Wrapping
  import opened Outcomes

  type byte = x: int | 0 <= x < 256

  const SPACE: byte := 32
  const PLUS: byte := 43
  const ZERO_DIGIT: byte := 48

  const MISSING_FIELD: string := "called `Option::unwrap()` on a `None` value"
  const NOT_A_NUMBER: string := "called `Result::unwrap()` on an `Err` value"

  /** `buf.split(|byte| *byte == b' ')`: the pieces between spaces, including
      empty ones; n spaces give n + 1 pieces. */
  function Split(buf: seq<byte>): (r: seq<seq<byte>>)
    ensures |r| >= 1
  {
    if buf == [] then [[]]
    else
      var rest := Split(buf[1..]);
      if buf[0] == SPACE then [[]] + rest
      else [[buf[0]] + rest[0]] + rest[1..]
  }

  predicate NoSpace(field: seq<byte>)
  {
    forall k :: 0 <= k < |field| ==> field[k] != SPACE
  }

  /** The fields written out with one space between neighbours. */
  function Join(fields: seq<seq<byte>>): seq<byte>
    requires |fields| >= 1
  {
    if |fields| == 1 then fields[0] else fields[0] + [SPACE] + Join(fields[1..])
  }

  /** Splitting loses nothing: rejoining the pieces gives the buffer back,
      and no piece contains a space. */
  lemma {:induction false} JoinSplit(buf: seq<byte>)
    ensures Join(Split(buf)) == buf
    ensures forall k :: 0 <= k < |Split(buf)| ==> NoSpace(Split(buf)[k])
  {
    if buf != [] {
      JoinSplit(buf[1..]);
      var rest := Split(buf[1..]);
      if buf[0] == SPACE {
        assert Split(buf)[1..] == rest;
      } else {
        assert NoSpace(rest[0]);
        if |rest| > 1 {
          assert Join(rest) == rest[0] + [SPACE] + Join(rest[1..]);
          assert Split(buf)[1..] == rest[1..];
        }
      }
    }
  }

  /** Splitting a space-joined list of space-free fields gives the fields back. */
  lemma {:induction false} SplitJoin(fields: seq<seq<byte>>)
    requires |fields| >= 1
    requires forall k :: 0 <= k < |fields| ==> NoSpace(fields[k])
    ensures Split(Join(fields)) == fields
    decreases |fields|, |fields[0]|
  {
    if |fields| == 1 {
      SplitField(fields[0], []);
      assert fields[0] + [] == fields[0];
      assert Split([]) == [[]];
    } else {
      var after := [SPACE] + Join(fields[1..]);
      SplitJoin(fields[1..]);
      SplitField(fields[0], after);
      assert after[1..] == Join(fields[1..]);
      assert Split(after) == [[]] + fields[1..];
      assert Join(fields) == fields[0] + after;
      assert fields[0] + [] == fields[0];
      assert fields == [fields[0]] + fields[1..];
    }
  }

  /** A space-free prefix joins the first piece of whatever follows it. */
  lemma {:induction false} SplitField(field: seq<byte>, tail: seq<byte>)
    requires NoSpace(field)
    ensures Split(field + tail) == [field + Split(tail)[0]] + Split(tail)[1..]
    decreases |field|
  {
    var s := Split(tail);
    if field != [] {
      var whole := field + tail;
      assert whole[0] == field[0] && whole[1..] == field[1..] + tail;
      SplitField(field[1..], tail);
      var rest := Split(whole[1..]);
      assert Split(whole) == [[field[0]] + rest[0]] + rest[1..];
      assert [field[0]] + rest[0] == field + s[0] by {
        assert [field[0]] + (field[1..] + s[0]) == field + s[0];
      }
    } else {
      assert field + tail == tail && field + s[0] == s[0];
      assert s == [s[0]] + s[1..];
    }
  }

  predicate IsDigit(b: byte) { ZERO_DIGIT <= b < ZERO_DIGIT + 10 }

  predicate AllDigits(s: seq<byte>)
  {
    forall k :: 0 <= k < |s| ==> IsDigit(s[k])
  }

  /** The number a string of decimal digits denotes. */
  function DecimalValue(s: seq<byte>): nat
    requires AllDigits(s)
  {
    if s == [] then 0 else DecimalValue(s[..|s| - 1]) * 10 + (s[|s| - 1] - ZERO_DIGIT)
  }

  /** `from_utf8(field).unwrap().parse::<u64>()`: an optional leading `+`, then
      at least one decimal digit and nothing else, denoting a number below
      2^64. Bytes that are not UTF-8 are not digits either, so the two failures
      are one. */
  function ParseU64(field: seq<byte>): (r: Option<u64>)
    ensures r.Some? <==>
      var digits := if |field| > 0 && field[0] == PLUS then field[1..] else field;
      |digits| > 0 && AllDigits(digits) && DecimalValue(digits) < TWO_64
    ensures r.Some? ==>
      var digits := if |field| > 0 && field[0] == PLUS then field[1..] else field;
      r.value == DecimalValue(digits)
  {
    var digits := if |field| > 0 && field[0] == PLUS then field[1..] else field;
    if |digits| == 0 || !AllDigits(digits) then None
    else
      var value := DecimalValue(digits);
      if value < TWO_64 then Some(value) else None
  }

  /** The decimal digits of `n`, most significant first, without leading zeros. */
  function Decimal(n: nat): (r: seq<byte>)
    ensures |r| >= 1 && AllDigits(r) && DecimalValue(r) == n
    decreases n
  {
    if n < 10 then [ZERO_DIGIT + n]
    else
      var r := Decimal(n / 10) + [ZERO_DIGIT + n % 10];
      assert r[..|r| - 1] == Decimal(n / 10);
      r
  }

  /** Parsing reads back every u64 written in decimal. */
  lemma ParseDecimal(n: u64)
    ensures ParseU64(Decimal(n)) == Some(n)
  {
  }

  /** The iterator chain: the fields after skipping nine, taken one by one,
      each `unwrap()` panicking on a missing field or a failed parse. */
  function FaultsFromStat(buf: seq<byte>): (r: Outcome<u64>)
    ensures r.Done? <==>
      |Split(buf)| >= 12 && ParseU64(Split(buf)[9]).Some? && ParseU64(Split(buf)[11]).Some?
    ensures r.Done? ==>
      r.value == WrapAdd(ParseU64(Split(buf)[9]).value, ParseU64(Split(buf)[11]).value)
  {
    var stats := Split(buf);
    var rest := if |stats| <= 9 then [] else stats[9..];
    if |rest| == 0 then Panic(MISSING_FIELD)
    else match ParseU64(rest[0])
      case None => Panic(NOT_A_NUMBER)
      case Some(minor) =>
        var rest := rest[1..];
        if |rest| == 0 then Panic(MISSING_FIELD)
        else
          var rest := rest[1..];
          if |rest| == 0 then Panic(MISSING_FIELD)
          else match ParseU64(rest[0])
            case None => Panic(NOT_A_NUMBER)
            case Some(major) => Done(WrapAdd(minor, major))
  }

  /** A status line whose tenth and twelfth fields are the decimal fault counts
      yields their sum, whatever the other fields hold. */
  lemma StatLine(fields: seq<seq<byte>>, minor: u64, major: u64)
    requires |fields| >= 12
    requires forall k :: 0 <= k < |fields| ==> NoSpace(fields[k])
    requires fields[9] == Decimal(minor) && fields[11] == Decimal(major)
    ensures FaultsFromStat(Join(fields)) == Done(WrapAdd(minor, major))
  {
    SplitJoin(fields);
    ParseDecimal(minor);
    ParseDecimal(major);
  }
}
