/** What the printed listing consists of: one line per instruction word, in
    order, and what a run leaves behind when it stops early. */
module Listings {
  import opened Hex
  import opened Strings
  import opened Chip8
  import opened Disassembler
  import opened Wrappers

  /** The lines of a listing, without their line breaks. */
  function Lines(ts: seq<string>, offset: nat): (ls: seq<string>)
    ensures |ls| == |ts|
    ensures forall i :: 0 <= i < |ts| ==> ls[i] == Line(offset + 2 * i, ts[i])
  {
    if ts == [] then [] else [Line(offset, ts[0])] + Lines(ts[1..], offset + 2)
  }

  /** A listing is its lines, each one followed by a line break. */
  lemma {:induction false} ListingJoin(ts: seq<string>, offset: nat)
    ensures Listing(ts, offset) == Join(Lines(ts, offset) + [""], "\n")
  {
    if ts != [] {
      var rest := Lines(ts[1..], offset + 2) + [""];
      assert Lines(ts, offset) + [""] == [Line(offset, ts[0])] + rest;
      JoinMore(Line(offset, ts[0]), rest, "\n");
      ListingJoin(ts[1..], offset + 2);
    }
  }

  /** No line of an instruction contains a line break. */
  lemma LineOneLine(offset: nat, w: Word)
    ensures '\n' !in Line(offset, Decode(w))
  {
    DecodeOneLine(w);
  }

  /** The listing of a byte stream splits at its line breaks into one line per
      big-endian pair: line `i` shows byte offset `2 * i` and the decoding of
      bytes `2 * i` and `2 * i + 1`. Nothing follows the last line break. */
  lemma DumpLines(bytes: seq<Byte>)
    ensures var lines := SplitOn(Dump(bytes), '\n');
            && |lines| == |bytes| / 2 + 1
            && lines[|bytes| / 2] == ""
            && forall i :: 0 <= i < |bytes| / 2 ==> lines[i] == Line(2 * i, Decode(Words(bytes)[i]))
  {
    DumpSplit(bytes);
    var ts := Texts(Words(bytes));
    forall i | 0 <= i < |bytes| / 2
      ensures Lines(ts, 0)[i] == Line(2 * i, Decode(Words(bytes)[i]))
    {
      TextAt(Words(bytes), i);
    }
  }

  /** Line `i` of the listing, spelled out: the offset `2 * i` padded to four
      hex digits, then the decoding of the pair of bytes there. */
  lemma DumpLine(bytes: seq<Byte>, i: nat)
    requires i < |bytes| / 2
    ensures |SplitOn(Dump(bytes), '\n')| > i
    ensures SplitOn(Dump(bytes), '\n')[i]
            == "0x" + ZeroPad(2 * i, 4) + ": " + Decode(bytes[2 * i] as int * 0x100 + bytes[2 * i + 1] as int)
  {
    DumpLines(bytes);
    var w := Words(bytes)[i];
    assert w == bytes[2 * i] as int * 0x100 + bytes[2 * i + 1] as int;
    assert SplitOn(Dump(bytes), '\n')[i] == Line(2 * i, Decode(w));
  }

  lemma DumpSplit(bytes: seq<Byte>)
    ensures SplitOn(Dump(bytes), '\n') == Lines(Texts(Words(bytes)), 0) + [""]
  {
    var ws := Words(bytes);
    var parts := Lines(Texts(ws), 0) + [""];
    forall k | 0 <= k < |parts|
      ensures '\n' !in parts[k]
    {
      if k < |ws| {
        LineAt(ws, k);
      }
    }
    ListingJoin(Texts(ws), 0);
    SplitJoin(parts, '\n');
  }

  lemma LineAt(ws: seq<Word>, k: nat)
    requires k < |ws|
    ensures '\n' !in Lines(Texts(ws), 0)[k]
  {
    TextAt(ws, k);
    LineOneLine(2 * k, ws[k]);
  }

  /** The offset field of a line below 0x10000 is exactly four hex digits that
      read back as the offset; the instruction text follows ": ". */
  lemma LineFields(offset: nat, text: string)
    requires offset < 0x10000
    ensures var l := Line(offset, text);
            && |l| == 8 + |text|
            && l[..2] == "0x" && l[6..8] == ": " && l[8..] == text
            && IsHexString(l[2..6]) && HexValue(l[2..6]) == offset
  {
    assert Pow16(4) == 0x10000;
    ZeroPadExact(offset, 4);
    Fields("0x", ZeroPad(offset, 4), ": ", text);
  }

  /** Cutting a concatenation of pieces of two, four and two characters at
      their boundaries gives the pieces back. */
  lemma Fields(a: string, b: string, c: string, d: string)
    requires |a| == 2 && |b| == 4 && |c| == 2
    ensures var l := a + b + c + d;
            |l| == 8 + |d| && l[..2] == a && l[2..6] == b && l[6..8] == c && l[8..] == d
  {
    var l := a + b + c + d;
    assert l[..2] == a;
    assert l[2..6] == b;
    assert l[6..8] == c;
    assert l[8..] == d;
  }

  /** A trailing odd byte is never shown. */
  lemma {:induction false} WordsOddByte(bytes: seq<Byte>, b: Byte)
    requires |bytes| % 2 == 0
    ensures Words(bytes + [b]) == Words(bytes)
  {
    if |bytes| >= 2 {
      assert (bytes + [b])[2..] == bytes[2..] + [b];
      WordsOddByte(bytes[2..], b);
    }
  }

  lemma DumpOddByte(bytes: seq<Byte>, b: Byte)
    requires |bytes| % 2 == 0
    ensures Dump(bytes + [b]) == Dump(bytes)
  {
    WordsOddByte(bytes, b);
  }

  /** A run on an input that never fails reads it to the end and writes its
      whole listing. */
  lemma CleanRun(data: seq<Byte>, start: nat, written: string, contents: string, pos: nat, result: Result)
    requires start <= |data| && Ran(data, start, None, written, contents, pos, result)
    ensures result == Ok && pos == |data| && contents == written + Dump(data[start..])
  {
    var ts := Texts(Words(data[start..]));
    assert ts[..|ts|] == ts;
  }

  /** An input with nothing left to read writes nothing and succeeds, unless
      its only read fails. */
  lemma EmptyRun(data: seq<Byte>, start: nat, fault: Option<nat>, written: string, contents: string,
                 pos: nat, result: Result)
    requires start == |data| && Ran(data, start, fault, written, contents, pos, result)
    ensures contents == written && pos == start
    ensures result == if fault == Some(start) then Err(InputError("Error reading input")) else Ok
  {
    var ts := Texts(Words(data[start..]));
    assert ts[..Outcome(|data|, start, fault).0] == [];
  }

  /** When the read at byte offset `2 * k` fails, the run reports an input
      error, stops there, and keeps the first `k` lines: a prefix of what a
      clean run would have written. */
  lemma FailedRun(data: seq<Byte>, start: nat, k: nat, written: string, contents: string, pos: nat,
                  result: Result)
    requires start + 2 * k <= |data|
    requires Ran(data, start, Some(start + 2 * k), written, contents, pos, result)
    ensures result == Err(InputError("Error reading input")) && pos == start + 2 * k
    ensures contents == written + Listing(Texts(Words(data[start..]))[..k], 0)
    ensures contents <= written + Dump(data[start..])
  {
    var ts := Texts(Words(data[start..]));
    assert Outcome(|data|, start, Some(start + 2 * k)) == (k, Err(InputError("Error reading input")));
    var front := Listing(ts[..k], 0);
    ListingSplit(ts, k, 0);
    Prefix(written, front, Listing(ts[k..], 2 * k));
  }

  lemma Prefix(a: string, b: string, c: string)
    ensures a + b <= a + (b + c)
  {
    assert a + (b + c) == (a + b) + c;
  }
}
