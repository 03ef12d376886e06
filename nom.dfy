/** The pieces of the nom parser-combinator library (version 5, streaming flavour) that the
    FLV parser is built from: the three-way result, the big-endian field readers, the
    fixed-tag matcher and the `complete!` adapter. `Needed` size hints and error kinds are
    collapsed into bare `Incomplete` and `Error`. */
module Nom {
  import opened Bytes

  /** nom's `IResult`: a parsed value with the unconsumed input, a request for more input,
      or a permanent failure. `rest` is always a suffix of the parser's input. */
  datatype IResult<+T> = Done(rest: seq<byte>, value: T) | Incomplete | Error {

    predicate IsFailure() {
      !Done?
    }

    /** A failed sequence step fails the whole sequence the same way. */
    function PropagateFailure<U>(): (r: IResult<U>)
      requires !Done?
      ensures r.Incomplete? == Incomplete? && r.Error? == Error?
    {
      if Incomplete? then Incomplete else Error
    }

    function Extract(): (seq<byte>, T)
      requires Done?
    {
      (rest, value)
    }
  }

  /** `complete!`: a parser that asks for more input is taken to have failed. */
  function Complete<T>(r: IResult<T>): (c: IResult<T>)
    ensures !c.Incomplete?
    ensures c.Done? <==> r.Done?
    ensures c.Done? ==> c == r
  {
    if r.Incomplete? then Error else r
  }

  /** `map!`: apply `f` to a parsed value; the outcome and the remaining input are kept. */
  function Map<T, U>(r: IResult<T>, f: T -> U): (m: IResult<U>)
    ensures m.Incomplete? == r.Incomplete? && m.Error? == r.Error?
    ensures r.Done? ==> m == Done(r.rest, f(r.value))
  {
    match r
    case Done(rest, value) => Done(rest, f(value))
    case Incomplete => Incomplete
    case Error => Error
  }

  /** What every nom parser does: on success it leaves a suffix of its input. */
  ghost predicate LeavesSuffix<T>(parse: seq<byte> -> IResult<T>) {
    forall input: seq<byte> ::
      parse(input).Done? ==>
        |parse(input).rest| <= |input| && parse(input).rest == input[|input| - |parse(input).rest|..]
  }

  /** A parser over bytes. */
  type Parser<T> = parse: seq<byte> -> IResult<T> | LeavesSuffix(parse)
    witness (input: seq<byte>) => Incomplete

  /** `values` are what `parse`, applied again and again from `input`, yields in order,
      each step consuming something, and `rest` is what the last step left. */
  ghost predicate Chain<T>(parse: Parser<T>, input: seq<byte>, values: seq<T>, rest: seq<byte>)
    decreases |values|
  {
    if values == [] then rest == input
    else
      var step := parse(input);
      && step.Done?
      && step.rest != input
      && step.value == values[0]
      && Chain(parse, step.rest, values[1..], rest)
  }

  /** `many0!`: apply `parse` until it fails, and succeed with the values so far and the
      input the failed attempt was given. A request for more input is passed on, and a
      step that consumes nothing is an error (it would otherwise repeat forever). */
  function Many0<T>(parse: Parser<T>, input: seq<byte>): (r: IResult<seq<T>>)
    ensures r.Done? ==> Chain(parse, input, r.value, r.rest) && parse(r.rest).Error?
    decreases |input|
  {
    match parse(input)
    case Error => Done(input, [])
    case Incomplete => Incomplete
    case Done(afterStep, value) =>
      if afterStep == input then Error
      else
        var (rest, values) :- Many0(parse, afterStep);
        Done(rest, [value] + values)
  }

  /** The chain with a failing next step is the only outcome of `many0!`: its values are
      exactly the longest run of consuming successes at the front of the input. */
  lemma {:induction false} Many0Unique<T>(parse: Parser<T>, input: seq<byte>, values: seq<T>, rest: seq<byte>)
    requires Chain(parse, input, values, rest)
    requires parse(rest).Error?
    ensures Many0(parse, input) == Done(rest, values)
    decreases |values|
  {
    if values != [] {
      var step := parse(input);
      Many0Unique(parse, step.rest, values[1..], rest);
      assert [values[0]] + values[1..] == values;
    }
  }

  /** With a parser that never asks for more input and always consumes on success,
      `many0!` always succeeds. */
  lemma {:induction false} Many0Succeeds<T>(parse: Parser<T>, input: seq<byte>)
    requires forall i: seq<byte> :: !parse(i).Incomplete? && (parse(i).Done? ==> parse(i).rest != i)
    ensures Many0(parse, input).Done?
    decreases |input|
  {
    if parse(input).Done? {
      Many0Succeeds(parse, parse(input).rest);
    }
  }

  /** `parse` consumes exactly `width(value)` bytes for each value it produces. */
  ghost predicate ConsumesWidth<T>(parse: Parser<T>, width: T -> nat) {
    forall input: seq<byte> {:trigger parse(input)} ::
      parse(input).Done? ==>
        width(parse(input).value) <= |input| && parse(input).rest == input[width(parse(input).value)..]
  }

  /** Bytes a sequence of values stands for. */
  function TotalWidth<T>(width: T -> nat, values: seq<T>): nat {
    if values == [] then 0 else width(values[0]) + TotalWidth(width, values[1..])
  }

  /** The values of a chain lie back to back at the front of the input, in input order,
      and what is left is the input after them: nothing is skipped or read twice. */
  lemma {:induction false} ChainLayout<T>(parse: Parser<T>, width: T -> nat, input: seq<byte>,
                                          values: seq<T>, rest: seq<byte>)
    requires ConsumesWidth(parse, width)
    requires Chain(parse, input, values, rest)
    ensures |input| == TotalWidth(width, values) + |rest|
    ensures rest == input[TotalWidth(width, values)..]
    decreases |values|
  {
    if values != [] {
      var step := parse(input);
      ChainLayout(parse, width, step.rest, values[1..], rest);
    }
  }

  /** `be_u8`: one byte, or a request for more input. */
  function BeU8(input: seq<byte>): (r: IResult<byte>)
    ensures !r.Error?
    ensures r.Incomplete? <==> |input| < 1
    ensures r.Done? ==> r.rest == input[1..] && r.value == BeValue(input[..1])
  {
    if |input| < 1 then Incomplete else Done(input[1..], input[0])
  }

  /** `be_u24`: three bytes, big-endian, zero-extended to 32 bits. */
  function BeU24(input: seq<byte>): (r: IResult<u32>)
    ensures !r.Error?
    ensures r.Incomplete? <==> |input| < 3
    ensures r.Done? ==> r.rest == input[3..] && r.value == BeValue(input[..3]) && r.value < TWO_24
  {
    if |input| < 3 then Incomplete
    else
      var value: int := (input[0] as int) * 0x1_0000 + (input[1] as int) * 0x100 + input[2];
      assert input[..3][..2] == input[..2] && input[..2][..1] == input[..1];
      assert BeValue(input[..2]) == (input[0] as int) * 0x100 + input[1];
      Done(input[3..], value)
  }

  /** `be_u32`: four bytes, big-endian. */
  function BeU32(input: seq<byte>): (r: IResult<u32>)
    ensures !r.Error?
    ensures r.Incomplete? <==> |input| < 4
    ensures r.Done? ==> r.rest == input[4..] && r.value == BeValue(input[..4])
  {
    if |input| < 4 then Incomplete
    else
      var value: int := (input[0] as int) * 0x100_0000 + (input[1] as int) * 0x1_0000
        + (input[2] as int) * 0x100 + input[3];
      assert input[..4][..3] == input[..3] && input[..3][..2] == input[..2] && input[..2][..1] == input[..1];
      assert BeValue(input[..2]) == (input[0] as int) * 0x100 + input[1];
      assert BeValue(input[..3]) == (input[0] as int) * 0x1_0000 + (input[1] as int) * 0x100 + input[2];
      Done(input[4..], value)
  }

  /** Reading a 24-bit field written by `EncodeBe` gives back the value written. */
  lemma BeU24OfEncode(x: nat, rest: seq<byte>)
    requires x < TWO_24
    ensures BeU24(EncodeBe(x, 3) + rest) == Done(rest, x)
  {
    var s := EncodeBe(x, 3) + rest;
    assert s[..3] == EncodeBe(x, 3);
    assert s[3..] == rest;
    BeValueOfEncode(x, 3);
  }

  /** Reading a 32-bit field written by `EncodeBe` gives back the value written. */
  lemma BeU32OfEncode(x: nat, rest: seq<byte>)
    requires x < TWO_32
    ensures BeU32(EncodeBe(x, 4) + rest) == Done(rest, x)
  {
    var s := EncodeBe(x, 4) + rest;
    assert s[..4] == EncodeBe(x, 4);
    assert s[4..] == rest;
    BeValueOfEncode(x, 4);
  }

  /** Some position present in both `input` and `t` holds different bytes. */
  ghost predicate Differs(input: seq<byte>, t: seq<byte>) {
    exists i :: 0 <= i < |input| && i < |t| && input[i] != t[i]
  }

  /** nom's `CompareResult` for byte slices. */
  datatype CompareResult = Matches | TooShort | Mismatch

  /** nom's `Compare` on byte slices: compare only as many bytes as both have; a
      difference is a mismatch, otherwise the input matches when it is at least as long
      as `t`. */
  function Compare(input: seq<byte>, t: seq<byte>): (c: CompareResult)
    ensures c == Mismatch <==> Differs(input, t)
    ensures c == Matches <==> !Differs(input, t) && |input| >= |t|
    ensures c == TooShort <==> !Differs(input, t) && |input| < |t|
  {
    if t == [] then Matches
    else if input == [] then TooShort
    else if input[0] != t[0] then Mismatch
    else
      var c := Compare(input[1..], t[1..]);
      assert Differs(input[1..], t[1..]) ==> Differs(input, t) by {
        if Differs(input[1..], t[1..]) {
          var i :| 0 <= i < |input[1..]| && i < |t[1..]| && input[1..][i] != t[1..][i];
          assert input[i + 1] != t[i + 1];
        }
      }
      assert Differs(input, t) ==> Differs(input[1..], t[1..]) by {
        if Differs(input, t) {
          var i :| 0 <= i < |input| && i < |t| && input[i] != t[i];
          assert input[1..][i - 1] != t[1..][i - 1];
        }
      }
      c
  }

  /** `tag!` in streaming mode: match the fixed bytes `t` at the front of the input. A
      matching input that is too short asks for more; any differing byte is an error. */
  function Tag(input: seq<byte>, t: seq<byte>): (r: IResult<seq<byte>>)
    ensures r.Error? <==> Differs(input, t)
    ensures r.Incomplete? <==> !Differs(input, t) && |input| < |t|
    ensures r.Done? ==> input[..|t|] == t && r.rest == input[|t|..] && r.value == t
  {
    match Compare(input, t)
    case Matches =>
      assert input[..|t|] == t by {
        forall i | 0 <= i < |t| ensures input[i] == t[i] {
          if input[i] != t[i] {
            assert Differs(input, t);
          }
        }
      }
      Done(input[|t|..], input[..|t|])
    case TooShort => Incomplete
    case Mismatch => Error
  }
}
