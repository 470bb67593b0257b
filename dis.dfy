/**
 * The bytecode disassembler (`rust/emitter/src/dis.rs`): one line per byte,
 * holding the opcode's name when the byte is an opcode and the byte in
 * decimal otherwise. `Opcode::try_from` and the opcode table are given as
 * a function `decode` from a byte to the opcode's name, if any.
 */
module Dis {
  import opened Wrappers
  import opened Strings

  newtype u8 = x: int | 0 <= x < 256

  /** The line of one byte: the opcode's `Debug` name, or the byte itself. */
  function LineOf(decode: u8 -> Option<string>, b: u8): string {
    match decode(b)
    case Some(name) => name
    case None => NatToString(b as nat)
  }

  /** The text `dis` returns: each byte's line followed by a newline. */
  function DisText(decode: u8 -> Option<string>, bc: seq<u8>): string
    decreases |bc|
  {
    if |bc| == 0 then "" else LineOf(decode, bc[0]) + "\n" + DisText(decode, bc[1..])
  }

  lemma {:induction false} DisTextSnoc(decode: u8 -> Option<string>, bc: seq<u8>, b: u8)
    ensures DisText(decode, bc + [b]) == DisText(decode, bc) + LineOf(decode, b) + "\n"
    decreases |bc|
  {
    if |bc| == 0 {
      assert DisText(decode, [b][1..]) == "";
    } else {
      var head := LineOf(decode, bc[0]) + "\n";
      var tail := LineOf(decode, b) + "\n";
      assert (bc + [b])[1..] == bc[1..] + [b];
      DisTextSnoc(decode, bc[1..], b);
      assert DisText(decode, bc + [b]) == head + (DisText(decode, bc[1..]) + tail);
    }
  }

  /** `dis`. */
  method Disassemble(decode: u8 -> Option<string>, bc: seq<u8>) returns (result: string)
    ensures result == DisText(decode, bc)
  {
    result := "";
    for i := 0 to |bc|
      invariant result == DisText(decode, bc[..i])
    {
      var byte := bc[i];
      DisTextSnoc(decode, bc[..i], byte);
      assert bc[..i + 1] == bc[..i] + [byte];
      match decode(byte) {
        case Some(op) =>
          result := result + op + "\n";
        case None =>
          result := result + NatToString(byte as nat) + "\n";
      }
    }
    assert bc[..|bc|] == bc;
  }

  /** The lines of a disassembly, one per byte, in byte order. */
  function Lines(decode: u8 -> Option<string>, bc: seq<u8>): (r: seq<string>)
    ensures |r| == |bc|
  {
    seq(|bc|, i requires 0 <= i < |bc| => LineOf(decode, bc[i]))
  }

  /** When no opcode name holds a newline, the text splits into exactly one
      line per byte, in order, each ended by a newline (the piece after the
      last newline is empty). */
  lemma {:induction false} DisLines(decode: u8 -> Option<string>, bc: seq<u8>)
    requires forall b: u8 :: decode(b).Some? ==> '\n' !in decode(b).value
    ensures Split(DisText(decode, bc), '\n') == Lines(decode, bc) + [""]
    decreases |bc|
  {
    if |bc| > 0 {
      DisLines(decode, bc[1..]);
      var line := LineOf(decode, bc[0]);
      assert '\n' !in line by {
        if decode(bc[0]).None? {
          assert IsDigits(NatToString(bc[0] as nat));
        }
      }
      assert DisText(decode, bc) == line + ['\n'] + DisText(decode, bc[1..]);
      SplitAtSep(line, DisText(decode, bc[1..]), '\n');
      assert Lines(decode, bc) == [line] + Lines(decode, bc[1..]);
    } else {
      assert Split("", '\n') == [""];
    }
  }

  /** The number of newlines in a text. */
  function Newlines(s: string): nat
    decreases |s|
  {
    if |s| == 0 then 0 else (if s[0] == '\n' then 1 else 0) + Newlines(s[1..])
  }

  lemma {:induction false} NewlinesAppend(a: string, b: string)
    ensures Newlines(a + b) == Newlines(a) + Newlines(b)
    decreases |a|
  {
    if |a| > 0 {
      assert (a + b)[1..] == a[1..] + b;
      NewlinesAppend(a[1..], b);
    } else {
      assert a + b == b;
    }
  }

  lemma {:induction false} NewlinesAbsent(s: string)
    requires '\n' !in s
    ensures Newlines(s) == 0
    decreases |s|
  {
    if |s| > 0 {
      NewlinesAbsent(s[1..]);
    }
  }

  /** When no opcode name holds a newline, the text has exactly as many
      newlines as there are bytes; in particular empty bytecode gives the
      empty string. */
  lemma {:induction false} DisLineCount(decode: u8 -> Option<string>, bc: seq<u8>)
    requires forall b: u8 :: decode(b).Some? ==> '\n' !in decode(b).value
    ensures Newlines(DisText(decode, bc)) == |bc|
    ensures |bc| == 0 <==> DisText(decode, bc) == ""
    decreases |bc|
  {
    if |bc| > 0 {
      DisLineCount(decode, bc[1..]);
      var line := LineOf(decode, bc[0]);
      assert '\n' !in line by {
        if decode(bc[0]).None? {
          assert IsDigits(NatToString(bc[0] as nat));
        }
      }
      NewlinesAbsent(line);
      NewlinesAppend(line, "\n");
      NewlinesAppend(line + "\n", DisText(decode, bc[1..]));
    }
  }
}
