/**
 The output gadget of the printf engine: it writes at most `maxChars`
 characters, to a buffer or to a function, but counts all of them.
 */
module Gadget {
  import opened CTypes

  class OutputGadget {
    /** `function != NULL`; `sent` records the calls that function receives. */
    const toFunction: bool
    const buffer: array?<char>
    const maxChars: nat
    var pos: nat
    var sent: string

    /** Every character offered so far, whether it was written or not. */
    ghost var log: string
    /** The buffer as it was when the gadget was made. */
    ghost const before: string
    /** The largest number of characters this gadget will be offered. */
    ghost const budget: nat

    ghost predicate Valid()
      reads this, buffer
      ensures Valid() ==> pos == |log| <= budget <= INT_MAX
    {
      && pos == |log| <= budget <= INT_MAX
      && maxChars <= INT_MAX
      && (toFunction ==> buffer == null && maxChars == INT_MAX && sent == log)
      && (!toFunction ==> sent == "")
      && (!toFunction && maxChars > 0 ==> buffer != null)
      && (buffer != null ==>
            var written := Min(pos, maxChars);
            && Min(maxChars, budget + 1) <= buffer.Length == |before|
            && buffer[..written] == log[..written]
            && buffer[written..] == before[written..])
    }

    constructor ForBuffer(buffer: array?<char>, size: nat, ghost budget: nat)
      requires budget <= INT_MAX
      requires buffer != null ==> Min(Min(size, INT_MAX), budget + 1) <= buffer.Length
      ensures Valid() && log == "" && this.budget == budget
      ensures !toFunction && this.buffer == buffer
      ensures maxChars == if buffer == null then 0 else if size < 0x7FFF_FFFF then size else 0x7FFF_FFFF
      ensures buffer != null ==> before == buffer[..]
    {
      this.toFunction := false;
      this.buffer := buffer;
      this.maxChars := if buffer == null then 0 else if size > INT_MAX then INT_MAX else size;
      this.pos, this.sent := 0, "";
      this.log, this.budget := "", budget;
      this.before := if buffer == null then "" else buffer[..];
    }

    constructor ForFunction(ghost budget: nat)
      requires budget <= INT_MAX
      ensures Valid() && log == "" && this.budget == budget
      ensures toFunction && buffer == null
    {
      this.toFunction := true;
      this.buffer := null;
      this.maxChars := INT_MAX;
      this.pos, this.sent := 0, "";
      this.log, this.before, this.budget := "", "", budget;
    }

    method Putchar(c: char)
      requires Valid() && |log| < budget
      modifies this, buffer
      ensures Valid() && log == old(log) + [c]
    {
      var writePos := pos;
      pos := pos + 1;
      log := log + [c];
      if writePos >= maxChars {
        assert log[..maxChars] == old(log)[..maxChars];
        return;
      }
      if toFunction {
        sent := sent + [c];
      } else {
        buffer[writePos] := c;
      }
    }

    /** Terminates the text in a non-empty buffer; a gadget without one is left alone. */
    method AppendTerm()
      requires Valid()
      modifies buffer
      ensures buffer != null && maxChars > 0 ==>
                var end := Min(|log|, maxChars - 1);
                buffer[..] == log[..end] + ['\0'] + before[end + 1..]
      ensures buffer != null && maxChars == 0 ==> buffer[..] == before
    {
      if toFunction || maxChars == 0 {
        return;
      }
      if buffer == null {
        return;
      }
      var nullPos := if pos < maxChars then pos else maxChars - 1;
      buffer[nullPos] := '\0';
    }
  }
}
