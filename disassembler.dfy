/** The disassembler loop: it reads the input two bytes at a time, decodes
    each big-endian pair and writes one line per instruction, prefixed by the
    byte offset of the instruction. */
module Disassembler {
  import opened Hex
  import opened Strings
  import opened Chip8
  import opened Wrappers

  type Byte = b: nat | b < 0x100

  /** The errors the disassembler reports, spelled as in the program. */
  datatype DissasembleError = InputError(message: string) | OutputError(message: string)

  datatype Result = Ok | Err(error: DissasembleError)

  /** What one read returns: the number of bytes it placed in the buffer, or
      an error. */
  datatype ReadResult = Read(count: nat) | ReadError

  /** An input stream over a fixed sequence of bytes. A read fills as much of
      the buffer as the remaining bytes allow; a read that starts at byte
      position `fault`, when there is one, fails instead. */
  class Reader {
    const data: seq<Byte>
    const fault: Option<nat>
    var pos: nat

    predicate Valid()
      reads this
    {
      pos <= |data|
    }

    constructor (data: seq<Byte>, fault: Option<nat>)
      ensures Valid() && this.data == data && this.fault == fault && pos == 0
    {
      this.data := data;
      this.fault := fault;
      pos := 0;
    }

    method ReadInto(buf: array<Byte>) returns (r: ReadResult)
      requires Valid()
      modifies this, buf
      ensures Valid()
      ensures r.ReadError? <==> fault == Some(old(pos))
      ensures r.ReadError? ==> pos == old(pos) && unchanged(buf)
      ensures r.Read? ==>
                && r.count == Min(buf.Length, |data| - old(pos))
                && pos == old(pos) + r.count
                && (forall i :: 0 <= i < r.count ==> buf[i] == data[old(pos) + i])
                && (forall i :: r.count <= i < buf.Length ==> buf[i] == old(buf[i]))
    {
      if fault == Some(pos) {
        return ReadError;
      }
      var n := Min(buf.Length, |data| - pos);
      for i := 0 to n
        invariant pos == old(pos)
        invariant forall k :: 0 <= k < i ==> buf[k] == data[pos + k]
        invariant forall k :: i <= k < buf.Length ==> buf[k] == old(buf[k])
      {
        buf[i] := data[pos + i];
      }
      pos := pos + n;
      r := Read(n);
    }
  }

  function Min(a: nat, b: nat): nat {
    if a < b then a else b
  }

  /** An output stream that keeps everything written to it. */
  class Writer {
    var contents: string

    constructor ()
      ensures contents == []
    {
      contents := [];
    }

    method Write(s: string)
      modifies this
      ensures contents == old(contents) + s
    {
      contents := contents + s;
    }
  }

  // ----- The listing

  /** The instruction words of a byte stream: big-endian pairs, a trailing odd
      byte left out. */
  function Words(bytes: seq<Byte>): (ws: seq<Word>)
    ensures |ws| == |bytes| / 2
    ensures forall i :: 0 <= i < |ws| ==> ws[i] == bytes[2 * i] as int * 0x100 + bytes[2 * i + 1] as int
  {
    if |bytes| < 2 then []
    else [bytes[0] as int * 0x100 + bytes[1] as int] + Words(bytes[2..])
  }

  /** The decoded text of every word. */
  function Texts(ws: seq<Word>): (ts: seq<string>)
    ensures |ts| == |ws|
  {
    if ws == [] then [] else [Decode(ws[0])] + Texts(ws[1..])
  }

  /** One line without its line break: `0x`, the offset in at least four
      lowercase hex digits, `: `, then the instruction text. */
  function Line(offset: nat, text: string): (l: string)
    ensures |l| >= 8 + |text|
    ensures l[..2] == "0x" && l[|l| - |text| - 2..|l| - |text|] == ": " && l[|l| - |text|..] == text
    ensures IsHexString(l[2..|l| - |text| - 2]) && HexValue(l[2..|l| - |text| - 2]) == offset
  {
    var digits := ZeroPad(offset, 4);
    ZeroPadDigits(offset, 4);
    HeaderFields(digits, text);
    "0x" + digits + ": " + text
  }

  /** Cutting a line at the ends of its header pieces gives the pieces back. */
  lemma HeaderFields(digits: string, text: string)
    ensures var l := "0x" + digits + ": " + text;
            && |l| == 4 + |digits| + |text|
            && l[..2] == "0x" && l[2..2 + |digits|] == digits
            && l[2 + |digits|..4 + |digits|] == ": " && l[4 + |digits|..] == text
  {
    var l := "0x" + digits + ": " + text;
    assert l[..2] == "0x";
    assert l[2..2 + |digits|] == digits;
    assert l[2 + |digits|..4 + |digits|] == ": ";
    assert l[4 + |digits|..] == text;
  }

  /** The lines of the instruction texts `ts`, the first at byte offset
      `offset`, each ended by a line break. */
  function Listing(ts: seq<string>, offset: nat): string {
    if ts == [] then "" else Line(offset, ts[0]) + "\n" + Listing(ts[1..], offset + 2)
  }

  /** Everything the disassembler writes for a whole byte stream it reads
      without error. */
  function Dump(bytes: seq<Byte>): string {
    Listing(Texts(Words(bytes)), 0)
  }

  /** How the loop ends on `size` bytes read from position `start`: after how
      many instructions, and with what result. A read is made at the start of
      every even offset up to the last whole pair and once more after it. */
  function Outcome(size: nat, start: nat, fault: Option<nat>): (o: (nat, Result))
    requires start <= size
    ensures o.0 <= (size - start) / 2
    ensures o.1.Ok? ==> o.0 == (size - start) / 2
    ensures o.1.Err? <==> fault.Some? && fault.value == start + 2 * o.0
  {
    var pairs := (size - start) / 2;
    if fault.Some? && start <= fault.value && (fault.value - start) % 2 == 0
       && (fault.value - start) / 2 <= pairs
    then ((fault.value - start) / 2, Err(InputError("Error reading input")))
    else (pairs, Ok)
  }

  /** None of the first `k` reads at even offsets from `start` is the one
      that fails. */
  predicate FaultAhead(start: nat, k: nat, fault: Option<nat>) {
    fault.Some? && start <= fault.value && (fault.value - start) % 2 == 0 ==> start + 2 * k <= fault.value
  }

  /** The loop invariant: after `lines` pairs read from `start` without a
      failed read, the reader is at `pos` and the output holds their lines. */
  predicate Progress(data: seq<Byte>, start: nat, fault: Option<nat>, written: string,
                     contents: string, pos: nat, lines: nat)
    requires start <= |data|
  {
    && pos == start + 2 * lines && pos <= |data|
    && FaultAhead(start, lines, fault)
    && contents == written + Listing(Texts(Words(data[start..]))[..lines], 0)
  }

  /** What a whole run does on `data` read from `start`: it stops after as
      many pairs as `Outcome` says, with its result, all of their lines
      written after `written`, and the reader at the end of the input or at
      the failing read. */
  predicate Ran(data: seq<Byte>, start: nat, fault: Option<nat>, written: string,
                contents: string, pos: nat, result: Result)
    requires start <= |data|
  {
    var o := Outcome(|data|, start, fault);
    && result == o.1
    && contents == written + Listing(Texts(Words(data[start..]))[..o.0], 0)
    && pos == if result.Ok? then |data| else start + 2 * o.0
  }

  /** Reads pairs from `input` and writes their lines to `output` until the
      input runs short of a pair or a read fails. */
  method Disassemble(input: Reader, output: Writer) returns (result: Result)
    requires input.Valid()
    modifies input, output
    ensures input.Valid()
    ensures old(input.pos) <= |input.data|
    ensures Ran(input.data, old(input.pos), input.fault, old(output.contents), output.contents, input.pos, result)
  {
    var buffer := new Byte[2](_ => 0);
    var offset: nat := 0;
    ghost var lines: nat := 0;
    ghost var start := input.pos;
    ghost var written := output.contents;
    Started(input.data, start, input.fault, written);
    while true
      invariant input.Valid() && buffer.Length == 2 && start <= |input.data| && offset == 2 * lines
      invariant Progress(input.data, start, input.fault, written, output.contents, input.pos, lines)
      decreases |input.data| - input.pos
    {
      ghost var here := input.pos;
      var r := input.ReadInto(buffer);
      match r
      case Read(n) =>
        if n != 2 {
          Ended(input.data, start, input.fault, written, output.contents, here, lines);
          return Ok;
        }
        var instruction: Word := buffer[0] as int * 0x100 + buffer[1] as int;
        Stepped(input.data, start, input.fault, written, output.contents, here, lines, offset, instruction);
        WriteInstruction(output, offset, instruction);
        offset := offset + n;
        lines := lines + 1;
      case ReadError =>
        Failed(input.data, start, input.fault, written, output.contents, here, lines);
        return Err(InputError("Error reading input"));
    }
  }

  /** Writes the line of one instruction: its offset, its text and a line
      break, in three writes. */
  method WriteInstruction(output: Writer, offset: nat, instruction: Word)
    modifies output
    ensures output.contents == old(output.contents) + ("0x" + ZeroPad(offset, 4) + ": ") + Decode(instruction) + "\n"
  {
    var decoded := Decode(instruction);
    output.Write("0x" + ZeroPad(offset, 4) + ": ");
    output.Write(decoded);
    output.Write("\n");
  }

  /** Before the first read nothing has been listed. */
  lemma Started(data: seq<Byte>, start: nat, fault: Option<nat>, written: string)
    requires start <= |data|
    ensures Progress(data, start, fault, written, written, start, 0)
  {
    assert Texts(Words(data[start..]))[..0] == [];
  }

  /** A read that comes back short of a pair ends the run with every pair
      listed. */
  lemma Ended(data: seq<Byte>, start: nat, fault: Option<nat>, written: string, contents: string,
              pos: nat, lines: nat)
    requires start <= |data| && Progress(data, start, fault, written, contents, pos, lines)
    requires Min(2, |data| - pos) != 2 && fault != Some(pos)
    ensures Ran(data, start, fault, written, contents, |data|, Ok)
  {
    EndOutcome(|data|, start, lines, fault);
  }

  /** Without a failing read among them, the run lists every whole pair. */
  lemma EndOutcome(size: nat, start: nat, k: nat, fault: Option<nat>)
    requires start + 2 * k <= size < start + 2 * k + 2
    requires FaultAhead(start, k, fault) && fault != Some(start + 2 * k)
    ensures Outcome(size, start, fault) == (k, Ok)
  {
    assert (size - start) / 2 == k;
  }

  /** A failing read ends the run with the pairs before it listed. */
  lemma Failed(data: seq<Byte>, start: nat, fault: Option<nat>, written: string, contents: string,
               pos: nat, lines: nat)
    requires start <= |data| && Progress(data, start, fault, written, contents, pos, lines)
    requires fault == Some(pos)
    ensures Ran(data, start, fault, written, contents, pos, Err(InputError("Error reading input")))
  {
    FaultOutcome(|data|, start, lines, fault);
  }

  /** The run stops at the read that fails when it comes at an even offset
      within the input. */
  lemma FaultOutcome(size: nat, start: nat, k: nat, fault: Option<nat>)
    requires start + 2 * k <= size && fault == Some(start + 2 * k)
    ensures Outcome(size, start, fault) == (k, Err(InputError("Error reading input")))
  {
    var d := fault.value - start;
    assert d == 2 * k;
    assert d % 2 == 0 && d / 2 == k;
  }

  /** Reading the pair that makes up `instruction` at the next even offset and
      writing its line keeps the invariant, one line further. */
  lemma Stepped(data: seq<Byte>, start: nat, fault: Option<nat>, written: string, contents: string,
                pos: nat, lines: nat, offset: nat, instruction: Word)
    requires start <= |data| && Progress(data, start, fault, written, contents, pos, lines)
    requires offset == 2 * lines && pos + 2 <= |data| && fault != Some(pos)
    requires instruction == data[pos] as int * 0x100 + data[pos + 1] as int
    ensures Progress(data, start, fault, written,
                     contents + ("0x" + ZeroPad(offset, 4) + ": ") + Decode(instruction) + "\n",
                     pos + 2, lines + 1)
  {
    NextFault(start, lines, fault);
    StepContents(data, start, lines, offset, written, contents, instruction);
  }

  /** The listing part of `Stepped`: the line written for the pair at
      `start + 2 * lines` is the next line of the listing. */
  lemma StepContents(data: seq<Byte>, start: nat, lines: nat, offset: nat, written: string,
                     contents: string, instruction: Word)
    requires start + 2 * lines + 2 <= |data| && offset == 2 * lines
    requires instruction == data[start + 2 * lines] as int * 0x100 + data[start + 2 * lines + 1] as int
    requires contents == written + Listing(Texts(Words(data[start..]))[..lines], 0)
    ensures contents + ("0x" + ZeroPad(offset, 4) + ": ") + Decode(instruction) + "\n"
            == written + Listing(Texts(Words(data[start..]))[..lines + 1], 0)
  {
    var ts := Texts(Words(data[start..]));
    StepText(data, start, lines, instruction);
    NextLine(ts, lines, offset, written, contents, Decode(instruction));
  }

  /** Text `j` of the listing of `data[start..]` is the decoding of the pair
      at `start + 2 * j`. */
  lemma StepText(data: seq<Byte>, start: nat, j: nat, instruction: Word)
    requires start + 2 * j + 1 < |data|
    requires instruction == data[start + 2 * j] as int * 0x100 + data[start + 2 * j + 1] as int
    ensures j < |Texts(Words(data[start..]))|
    ensures Texts(Words(data[start..]))[j] == Decode(instruction)
  {
    var ws := Words(data[start..]);
    WordAt(data, start, j, data[start + 2 * j], data[start + 2 * j + 1]);
    TextAt(ws, j);
  }

  /** The pair read at an even offset is the word the listing has there. */
  lemma WordAt(data: seq<Byte>, start: nat, j: nat, high: Byte, low: Byte)
    requires start + 2 * j + 1 < |data|
    requires data[start + 2 * j] == high && data[start + 2 * j + 1] == low
    ensures j < |Words(data[start..])|
    ensures Words(data[start..])[j] == high as int * 0x100 + low as int
  {
    var bytes := data[start..];
    assert bytes[2 * j] == high && bytes[2 * j + 1] == low;
  }

  /** Text `j` is the decoding of word `j`. */
  lemma {:induction false} TextAt(ws: seq<Word>, j: nat)
    requires j < |ws|
    ensures j < |Texts(ws)| && Texts(ws)[j] == Decode(ws[j])
  {
    if j > 0 {
      TextAt(ws[1..], j - 1);
    }
  }

  /** A successful read at the next even offset moves past it. */
  lemma NextFault(start: nat, k: nat, fault: Option<nat>)
    requires FaultAhead(start, k, fault) && fault != Some(start + 2 * k)
    ensures FaultAhead(start, k + 1, fault)
  {
  }

  /** Writing the header, the text and a line break extends the listing by
      line `j`, the one at byte offset `offset`. */
  lemma NextLine(ts: seq<string>, j: nat, offset: nat, written: string, before: string, text: string)
    requires j < |ts| && ts[j] == text && offset == 2 * j && before == written + Listing(ts[..j], 0)
    ensures before + ("0x" + ZeroPad(offset, 4) + ": ") + text + "\n" == written + Listing(ts[..j + 1], 0)
  {
    ListingSnoc(ts[..j], text, 0);
    assert ts[..j + 1] == ts[..j] + [text];
    AppendLine(written, Listing(ts[..j], 0), "0x" + ZeroPad(offset, 4) + ": ", text);
  }

  lemma AppendLine(a: string, b: string, h: string, d: string)
    ensures a + b + h + d + "\n" == a + (b + (h + d) + "\n")
  {
  }

  /** A listing grows by one line per text. */
  lemma ListingSnoc(ts: seq<string>, t: string, offset: nat)
    ensures Listing(ts + [t], offset) == Listing(ts, offset) + Line(offset + 2 * |ts|, t) + "\n"
  {
    var all := ts + [t];
    ListingSplit(all, |ts|, offset);
    assert all[..|ts|] == ts && all[|ts|..] == [t];
    assert [t][1..] == [];
  }

  /** A listing is the listing of its first `k` lines followed by the listing
      of the rest. */
  lemma {:induction false} ListingSplit(ts: seq<string>, k: nat, offset: nat)
    requires k <= |ts|
    ensures Listing(ts, offset) == Listing(ts[..k], offset) + Listing(ts[k..], offset + 2 * k)
  {
    if k > 0 {
      var head := Line(offset, ts[0]) + "\n";
      var front, back := Listing(ts[1..][..k - 1], offset + 2), Listing(ts[k..], offset + 2 * k);
      Slices(ts, k);
      assert Listing(ts[..k], offset) == head + front;
      ListingSplit(ts[1..], k - 1, offset + 2);
      assert Listing(ts[1..], offset + 2) == front + back;
      SeqAssoc(head, front, back);
    } else {
      assert ts[..0] == [];
    }
  }

  /** Taking the first `k` elements commutes with dropping the first one. */
  lemma Slices<T>(ts: seq<T>, k: nat)
    requires 0 < k <= |ts|
    ensures ts[..k][0] == ts[0] && ts[..k][1..] == ts[1..][..k - 1]
    ensures ts[1..][k - 1..] == ts[k..]
  {
  }
}
