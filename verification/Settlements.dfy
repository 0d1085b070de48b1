/** How calls, deliveries and transactions end, for both consumers. */
module Settlements {

  /** How a call ends: normally, with an error, or by panicking. */
  datatype Call = Ok | Err | Panic

  datatype Settlement = Ack | Nack

  /** How a series of calls ends: the first that does not end normally is the last one made. */
  function EndOf(calls: seq<Call>): Call {
    if calls == [] then Ok else if !calls[0].Ok? then calls[0] else EndOf(calls[1..])
  }

  lemma EndOfCons(call: Call, rest: seq<Call>)
    ensures EndOf([call] + rest) == if call.Ok? then EndOf(rest) else call
  {
    assert ([call] + rest)[1..] == rest;
  }

  lemma EndOfTwo(a: Call, b: Call, rest: seq<Call>)
    ensures EndOf([a, b] + rest) == if !a.Ok? then a else if !b.Ok? then b else EndOf(rest)
  {
    assert [a, b] + rest == [a] + ([b] + rest);
    EndOfCons(a, [b] + rest);
    EndOfCons(b, rest);
  }

  lemma EndOfThree(a: Call, b: Call, c: Call, rest: seq<Call>)
    ensures EndOf([a, b, c] + rest) == if !a.Ok? then a else if !b.Ok? then b else if !c.Ok? then c else EndOf(rest)
  {
    assert [a, b, c] + rest == [a, b] + ([c] + rest);
    EndOfTwo(a, b, [c] + rest);
    EndOfCons(c, rest);
  }

  /** Where the handling of a delivery ended.  A commit that does not report success may have
      taken effect all the same: `durable`. */
  datatype End =
    | Poison
    | Duplicate
    | Aborted(call: Call)
    | Committing(call: Call, durable: bool)
  {
    predicate Panicked() {
      !Poison? && !Duplicate? && call.Panic?
    }

    predicate Durable() {
      Committing? && durable
    }
  }
}
