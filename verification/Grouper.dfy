/** Text cut into groups with a separator between them, as it arrives. */
module Grouping {
  import opened ByteBits

  /** Groups of g with the separator between them; a group size of 0 means no groups. */
  ghost function Grouped(m: seq<Byte>, g: nat, separator: seq<Byte>): seq<Byte>
    decreases |m|
  {
    if g == 0 || |m| <= g then m else m[..g] + separator + Grouped(m[g..], g, separator)
  }

  /** How much of the last group there is. */
  ghost function LastGroup(m: seq<Byte>, g: nat): (n: nat)
    requires g > 0
    ensures n <= g
    decreases |m|
  {
    if |m| <= g then |m| else LastGroup(m[g..], g)
  }

  /** More of the last group, or the first part of a new one. */
  lemma {:induction false} GroupMore(m: seq<Byte>, t: seq<Byte>, g: nat, separator: seq<Byte>)
    requires g > 0 && t != [] && |t| <= g
    requires LastGroup(m, g) == g || LastGroup(m, g) + |t| <= g
    ensures LastGroup(m + t, g) == if LastGroup(m, g) == g then |t| else LastGroup(m, g) + |t|
    ensures Grouped(m + t, g, separator)
      == Grouped(m, g, separator) + (if LastGroup(m, g) == g then separator + t else t)
    decreases |m|
  {
    var more := if LastGroup(m, g) == g then separator + t else t;
    if |m| > g {
      GroupMore(m[g..], t, g, separator);
      assert (m + t)[..g] == m[..g] && (m + t)[g..] == m[g..] + t;
      var head, rest := m[..g] + separator, Grouped(m[g..], g, separator);
      assert head + (rest + more) == head + rest + more;
    } else if |m| == g {
      assert (m + t)[..g] == m && (m + t)[g..] == t;
      assert m + separator + t == m + (separator + t);
    }
  }

  lemma Associates(a: seq<Byte>, b: seq<Byte>, c: seq<Byte>, d: seq<Byte>)
    ensures a + b + c + d == a + (b + (c + d)) && a + b + d == a + (b + d)
  {
  }

  class Grouper {
    const groupSize: nat
    const separator: seq<Byte>
    const terminator: seq<Byte>
    var counter: nat
    // What went to the attached filter
    var output: seq<Byte>
    // The current message so far, and the output before it
    ghost var message: seq<Byte>
    ghost var before: seq<Byte>

    ghost predicate Valid()
      reads this
    {
      && (groupSize > 0 ==> counter == LastGroup(message, groupSize))
      && output == before + Grouped(message, groupSize, separator)
    }

    constructor (groupSize: nat, separator: seq<Byte>, terminator: seq<Byte>)
      ensures Valid() && message == [] && before == []
      ensures this.groupSize == groupSize && this.separator == separator && this.terminator == terminator
    {
      this.groupSize, this.separator, this.terminator := groupSize, separator, terminator;
      counter, output, message, before := 0, [], [], [];
    }

    /** One turn of the loop of `Put2`: as much of the rest as the group takes. */
    method PutSome(rest: seq<Byte>) returns (len: nat)
      requires Valid() && groupSize > 0 && rest != []
      modifies this
      ensures Valid() && before == old(before)
      ensures 0 < len <= |rest| && message == old(message) + rest[..len]
    {
      hide Grouped, LastGroup;
      if counter == groupSize {
        output := output + separator;
        counter := 0;
      }
      len := if |rest| < groupSize - counter then |rest| else groupSize - counter;
      GroupMore(message, rest[..len], groupSize, separator);
      ghost var grouped, t := Grouped(message, groupSize, separator), rest[..len];
      Associates(before, grouped, separator, t);
      output := output + rest[..len];
      counter := counter + len;
      message := message + rest[..len];
    }

    /** `Put2`: however the message is cut into calls, only the whole message matters. */
    method Put(input: seq<Byte>, messageEnd: bool)
      requires Valid()
      modifies this
      ensures Valid()
      ensures !messageEnd ==> message == old(message) + input && before == old(before)
      ensures messageEnd ==> message == [] && before == output
      ensures messageEnd ==> output == old(before) + Grouped(old(message) + input, groupSize, separator) + terminator
    {
      if groupSize != 0 {
        var position := 0;
        while position < |input|
          invariant position <= |input| && Valid() && message == old(message) + input[..position] && before == old(before)
        {
          var len := PutSome(input[position..]);
          assert input[..position + len] == input[..position] + input[position..][..len];
          position := position + len;
        }
        assert input[..position] == input;
      } else {
        assert before + (message + input) == before + message + input;
        output := output + input;
        message := message + input;
      }
      if messageEnd {
        output := output + terminator;
        counter := 0;
        message, before := [], output;
      }
    }
  }
}
