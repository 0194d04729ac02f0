/** Reading a decoded line back. A line is a mnemonic followed by operands
    separated by ", "; the assembler parses that shape and rebuilds the
    instruction word, which shows that every field of a word can be recovered
    from its text. */
module Assembler {
  import opened Hex
  import opened Strings
  import opened Chip8
  import opened Wrappers

  /** The shape of every line: the mnemonic alone, or the mnemonic, one
      space and the operands joined by ", ". */
  function Render(mnemonic: string, operands: seq<string>): string {
    if operands == [] then mnemonic else mnemonic + " " + Join(operands, ", ")
  }

  /** Splits a line into its mnemonic (up to the first space) and its
      operands (the rest, cut at each ',' with the following space dropped). */
  function Tokens(s: string): (string, seq<string>) {
    var i := IndexOf(s, ' ');
    if i == |s| then (s, [])
    else
      var pieces := SplitOn(s[i + 1..], ',');
      (s[..i], [pieces[0]] + Unspaced(pieces[1..]))
  }

  function DropSpace(p: string): string {
    if |p| > 0 && p[0] == ' ' then p[1..] else p
  }

  function Unspaced(pieces: seq<string>): seq<string> {
    if pieces == [] then [] else [DropSpace(pieces[0])] + Unspaced(pieces[1..])
  }

  /** Each operand after the first, with the space that follows its comma. */
  function Spaced(ops: seq<string>): (r: seq<string>)
    ensures |r| == |ops|
    ensures forall k :: 0 <= k < |ops| ==> r[k] == " " + ops[k]
  {
    if ops == [] then [] else [" " + ops[0]] + Spaced(ops[1..])
  }

  lemma {:induction false} UnspacedSpaced(ops: seq<string>)
    ensures Unspaced(Spaced(ops)) == ops
  {
    if ops != [] {
      var r := Spaced(ops);
      assert r[1..] == Spaced(ops[1..]);
      UnspacedSpaced(ops[1..]);
      assert DropSpace(" " + ops[0]) == ops[0];
    }
  }

  /** Joining with ", " is joining with "," after putting the space in front
      of each later operand. */
  lemma {:induction false} JoinSpacedTail(rest: seq<string>)
    requires rest != []
    ensures ", " + Join(rest, ", ") == "," + Join(Spaced(rest), ",")
  {
    var r := rest[0];
    if |rest| == 1 {
      assert Spaced(rest) == [" " + r];
    } else {
      var tail := rest[1..];
      assert rest == [r] + tail;
      assert Spaced(rest) == [" " + r] + Spaced(tail);
      var j, js := Join(tail, ", "), Join(Spaced(tail), ",");
      calc {
        ", " + Join(rest, ", ");
      == { JoinMore(r, tail, ", "); }
        ", " + (r + ", " + j);
      == { Regroup(", ", r, ", ", j); }
        (", " + r) + (", " + j);
      == { JoinSpacedTail(tail); }
        (", " + r) + ("," + js);
      == { Regroup(",", " " + r, ",", js); assert "," + (" " + r) == ", " + r; }
        "," + ((" " + r) + "," + js);
      == { JoinMore(" " + r, Spaced(tail), ","); }
        "," + Join(Spaced(rest), ",");
      }
    }
  }

  lemma Regroup(a: string, b: string, c: string, d: string)
    ensures a + (b + c + d) == (a + b) + (c + d)
  {
  }

  lemma JoinSpaced(ops: seq<string>)
    requires ops != []
    ensures Join(ops, ", ") == Join([ops[0]] + Spaced(ops[1..]), ",")
  {
    if |ops| > 1 {
      var h, t := ops[0], ops[1..];
      assert ops == [h] + t;
      var j, js := Join(t, ", "), Join(Spaced(t), ",");
      JoinMore(h, t, ", ");
      JoinSpacedTail(t);
      JoinMore(h, Spaced(t), ",");
      SeqAssoc(h, ", ", j);
      SeqAssoc(h, ",", js);
    }
  }

  /** Tokens undoes Render when the mnemonic has no space and no operand has
      a comma: the line determines its mnemonic and its operand list. */
  lemma TokensRender(m: string, ops: seq<string>)
    requires ' ' !in m
    requires forall k :: 0 <= k < |ops| ==> ',' !in ops[k]
    ensures Tokens(Render(m, ops)) == (m, ops)
  {
    if ops == [] {
      assert IndexOf(m, ' ') == |m|;
    } else {
      var j := Join(ops, ", ");
      var pieces := [ops[0]] + Spaced(ops[1..]);
      assert SplitOn(j, ',') == pieces by {
        JoinSpaced(ops);
        SpacedNoComma(ops);
        SplitJoin(pieces, ',');
      }
      assert Unspaced(pieces[1..]) == ops[1..] by {
        assert pieces[1..] == Spaced(ops[1..]);
        UnspacedSpaced(ops[1..]);
      }
      TokensSplit(m, j);
      assert [ops[0]] + ops[1..] == ops;
    }
  }

  /** A line with a space after a space-free mnemonic is split there. */
  lemma TokensSplit(m: string, j: string)
    requires ' ' !in m
    ensures var pieces := SplitOn(j, ',');
            Tokens(m + " " + j) == (m, [pieces[0]] + Unspaced(pieces[1..]))
  {
    var s := m + [' '] + j;
    assert m + " " + j == s;
    IndexOfFirst(m, ' ', j);
    assert s[..|m|] == m;
    assert s[|m| + 1..] == j;
  }

  /** Putting spaces in front of comma-free operands adds no comma. */
  lemma SpacedNoComma(ops: seq<string>)
    requires ops != []
    requires forall k :: 0 <= k < |ops| ==> ',' !in ops[k]
    ensures var pieces := [ops[0]] + Spaced(ops[1..]);
            forall k :: 0 <= k < |pieces| ==> ',' !in pieces[k]
  {
    var pieces := [ops[0]] + Spaced(ops[1..]);
    forall k | 0 <= k < |pieces|
      ensures ',' !in pieces[k]
    {
      if k > 0 {
        assert pieces[k] == " " + ops[k];
      }
    }
  }

  lemma RenderOne(m: string, a: string)
    ensures Render(m, [a]) == m + " " + a
  {
  }

  lemma RenderTwo(m: string, a: string, b: string)
    ensures Render(m, [a, b]) == m + " " + a + ", " + b
  {
    JoinTwo(a, b, ", ");
  }

  lemma RenderThree(m: string, a: string, b: string, c: string)
    ensures Render(m, [a, b, c]) == m + " " + a + ", " + b + ", " + c
  {
    assert [a, b, c] == [a] + [b, c];
    JoinMore(a, [b, c], ", ");
    JoinTwo(b, c, ", ");
  }

  lemma RenderFour(m: string, a: string, b: string, c: string, d: string)
    ensures Render(m, [a, b, c, d]) == m + " " + a + ", " + b + ", " + c + ", " + d
  {
    assert [a, b, c, d] == [a] + [b, c, d];
    JoinMore(a, [b, c, d], ", ");
    assert [b, c, d] == [b] + [c, d];
    JoinMore(b, [c, d], ", ");
    JoinTwo(c, d, ", ");
  }

  // Every line of the decoder is one of the shapes below: literal text
  // (`l1`, `l2`, ...) around hex digit strings (`a`, `b`, `c`). Each lemma
  // reads such a line as a mnemonic with its operands.

  lemma LineA(l1: string, a: string, m: string, p1: string)
    requires l1 == m + " " + p1
    ensures l1 + a == Render(m, [p1 + a])
  {
    RenderOne(m, p1 + a);
  }

  lemma LineB(l1: string, a: string, m: string, o1: string, p2: string)
    requires l1 == m + " " + o1 + ", " + p2
    ensures l1 + a == Render(m, [o1, p2 + a])
  {
    RenderTwo(m, o1, p2 + a);
  }

  lemma LineC(l1: string, a: string, l2: string, m: string, p1: string, o2: string)
    requires l1 == m + " " + p1 && l2 == ", " + o2
    ensures l1 + a + l2 == Render(m, [p1 + a, o2])
  {
    RenderTwo(m, p1 + a, o2);
  }

  lemma LineD(l1: string, a: string, l2: string, b: string, m: string, p1: string, p2: string)
    requires l1 == m + " " + p1 && l2 == ", " + p2
    ensures l1 + a + l2 + b == Render(m, [p1 + a, p2 + b])
  {
    RenderTwo(m, p1 + a, p2 + b);
  }

  lemma LineE(l1: string, a: string, l2: string, b: string,
              m: string, o1: string, p2: string, p3: string)
    requires l1 == m + " " + o1 + ", " + p2 && l2 == ", " + p3
    ensures l1 + a + l2 + b == Render(m, [o1, p2 + a, p3 + b])
  {
    RenderThree(m, o1, p2 + a, p3 + b);
  }

  lemma LineF(l1: string, a: string, l2: string, b: string, l3: string, c: string,
              m: string, p1: string, p2: string, p3: string)
    requires l1 == m + " " + p1 && l2 == ", " + p2 && l3 == ", " + p3
    ensures l1 + a + l2 + b + l3 + c == Render(m, [p1 + a, p2 + b, p3 + c])
  {
    RenderThree(m, p1 + a, p2 + b, p3 + c);
  }

  lemma LineG(l1: string, a: string, l2: string, b: string, l3: string, c: string,
              m: string, o1: string, p2: string, p3: string, p4: string)
    requires l1 == m + " " + o1 + ", " + p2 && l2 == ", " + p3 && l3 == ", " + p4
    ensures l1 + a + l2 + b + l3 + c == Render(m, [o1, p2 + a, p3 + b, p4 + c])
  {
    RenderFour(m, o1, p2 + a, p3 + b, p4 + c);
  }

  // ----- Operand fields

  /** The value of an operand made of `prefix` and exactly `width` hex digits. */
  function Field(operand: string, prefix: string, width: nat): (r: Option<nat>)
    ensures r.Some? ==> r.value < Pow16(width)
  {
    if |operand| == |prefix| + width && operand[..|prefix|] == prefix
       && IsHexString(operand[|prefix|..])
    then
      var digits := operand[|prefix|..];
      HexValueBound(digits);
      Some(HexValue(digits))
    else None
  }

  lemma {:induction false} HexValueBound(s: string)
    requires IsHexString(s)
    ensures HexValue(s) < Pow16(|s|)
  {
    if s != [] {
      HexValueBound(s[..|s| - 1]);
    }
  }

  lemma FieldOf(prefix: string, digits: string)
    requires IsHexString(digits)
    ensures Field(prefix + digits, prefix, |digits|) == Some(HexValue(digits))
  {
    var s := prefix + digits;
    assert s[..|prefix|] == prefix;
    assert s[|prefix|..] == digits;
  }

  /** A hex digit string after a comma-free prefix has no comma. */
  lemma NoComma(prefix: string, digits: string)
    requires ',' !in prefix && IsHexString(digits)
    ensures ',' !in prefix + digits
  {
  }

  lemma NibField(prefix: string, v: nat)
    requires v < 16
    ensures IsHexString(Nib(v)) && |Nib(v)| == 1
    ensures Field(prefix + Nib(v), prefix, 1) == Some(v)
  {
    DigitValueOfHexDigit(v);
    assert Nib(v)[..0] == [];
    FieldOf(prefix, Nib(v));
  }

  lemma ByteField(prefix: string, w: Word)
    ensures IsHexString(Byte2(w)) && |Byte2(w)| == 2
    ensures Field(prefix + Byte2(w), prefix, 2) == Some(KK(w))
  {
    ByteDigits(w);
    assert Pow16(2) == 256;
    ZeroPadExact(KK(w), 2);
    FieldOf(prefix, Byte2(w));
  }

  lemma AddrField(prefix: string, w: Word)
    ensures IsHexString(Addr3(w)) && |Addr3(w)| == 3
    ensures Field(prefix + Addr3(w), prefix, 3) == Some(NNN(w))
  {
    AddressDigits(w);
    assert Pow16(3) == 4096;
    ZeroPadExact(NNN(w), 3);
    FieldOf(prefix, Addr3(w));
  }

  // ----- Encoding

  /** The opcode of the mnemonics that take a register and a byte. */
  function ByteOpcode(m: string): Option<nat> {
    if m == "SE" then Some(0x3)
    else if m == "SNE" then Some(0x4)
    else if m == "LD" then Some(0x6)
    else if m == "ADD" then Some(0x7)
    else if m == "RND" then Some(0xc)
    else None
  }

  /** The low nibble of the opcode-8 mnemonics. */
  function ArithmeticNibble(m: string): Option<nat> {
    if m == "LD" then Some(0x0)
    else if m == "OR" then Some(0x1)
    else if m == "AND" then Some(0x2)
    else if m == "XOR" then Some(0x3)
    else if m == "ADD" then Some(0x4)
    else if m == "SUB" then Some(0x5)
    else if m == "SHR" then Some(0x6)
    else if m == "SUBN" then Some(0x7)
    else if m == "SHL" then Some(0xe)
    else None
  }

  /** The word of a mnemonic with two registers Vx, Vy. */
  function PairWord(m: string, x: nat, y: nat): Option<nat> {
    if m == "SE" then Some(0x5000 + x * 0x100 + y * 0x10)
    else if m == "SNE" then Some(0x9000 + x * 0x100 + y * 0x10)
    else
      match ArithmeticNibble(m)
      case Some(n) => Some(0x8000 + x * 0x100 + y * 0x10 + n)
      case None => None
  }

  /** The F instructions that name Vx first. */
  function MiscFromRegister(m: string, x: nat, b: string): Option<nat> {
    if m != "LD" then None
    else if b == "DT" then Some(0xf007 + x * 0x100)
    else if b == "K" then Some(0xf00a + x * 0x100)
    else if b == "[I]" then Some(0xf065 + x * 0x100)
    else None
  }

  /** The F instructions that name Vx second. */
  function MiscToRegister(m: string, a: string, x: nat): Option<nat> {
    if m == "ADD" then (if a == "I" then Some(0xf01e + x * 0x100) else None)
    else if m != "LD" then None
    else if a == "DT" then Some(0xf015 + x * 0x100)
    else if a == "ST" then Some(0xf018 + x * 0x100)
    else if a == "F" then Some(0xf029 + x * 0x100)
    else if a == "B" then Some(0xf033 + x * 0x100)
    else if a == "[I]" then Some(0xf055 + x * 0x100)
    else None
  }

  function EncodeOne(m: string, a: string): Option<nat> {
    match (Field(a, "0x", 3), Field(a, "V", 1))
    case (Some(nnn), _) =>
      if m == "SYS" then Some(nnn)
      else if m == "JP" then Some(0x1000 + nnn)
      else if m == "CALL" then Some(0x2000 + nnn)
      else None
    case (None, Some(x)) =>
      if m == "SKP" then Some(0xe09e + x * 0x100)
      else if m == "SKNP" then Some(0xe0a1 + x * 0x100)
      else None
    case (None, None) => None
  }

  function EncodeTwo(m: string, a: string, b: string): Option<nat> {
    match Field(a, "V", 1)
    case Some(x) =>
      match (Field(b, "0x", 2), Field(b, "V", 1), Field(b, "0x", 3)) {
      case (Some(kk), _, _) =>
        match ByteOpcode(m) {
        case Some(op) => Some(op * 0x1000 + x * 0x100 + kk)
        case None => None
        }
      case (None, Some(y), _) => PairWord(m, x, y)
      case (None, None, Some(nnn)) =>
        if m == "LD" && a == "V0" then Some(0xb000 + nnn) else None
      case (None, None, None) => MiscFromRegister(m, x, b)
      }
    case None =>
      match (Field(b, "0x", 3), Field(b, "V", 1)) {
      case (Some(nnn), _) =>
        if m == "LD" && a == "I" then Some(0xa000 + nnn) else None
      case (None, Some(x)) => MiscToRegister(m, a, x)
      case (None, None) => None
      }
  }

  function EncodeThree(m: string, a: string, b: string, c: string): Option<nat> {
    if m == "DRW" then
      match (Field(a, "V", 1), Field(b, "V", 1), Field(c, "0x", 2))
      case (Some(x), Some(y), Some(n)) => Some(0xd000 + x * 0x100 + y * 0x10 + n)
      case _ => None
    else if m == "(invalid):" && a == "opcode: e" then
      match (Field(b, "x: ", 1), Field(c, "0x", 2))
      case (Some(x), Some(kk)) => Some(0xe000 + x * 0x100 + kk)
      case _ => None
    else if m == "(invalid):" && a == "opcode: f" then
      match (Field(b, "x: ", 1), Field(c, "sel: 0x", 2))
      case (Some(x), Some(kk)) => Some(0xf000 + x * 0x100 + kk)
      case _ => None
    else None
  }

  function EncodeFour(m: string, a: string, b: string, c: string, d: string): Option<nat> {
    if m == "(invalid):" && a == "opcode: 8" then
      match (Field(b, "x: ", 1), Field(c, "v: ", 1), Field(d, "sel: 0x", 1))
      case (Some(x), Some(y), Some(n)) => Some(0x8000 + x * 0x100 + y * 0x10 + n)
      case _ => None
    else None
  }

  /** The word a mnemonic and its operands stand for, if any. */
  function Encode(m: string, ops: seq<string>): Option<nat> {
    if |ops| == 0 then
      if m == "CLS" then Some(0x00e0) else if m == "RET" then Some(0x00ee) else None
    else if |ops| == 1 then EncodeOne(m, ops[0])
    else if |ops| == 2 then EncodeTwo(m, ops[0], ops[1])
    else if |ops| == 3 then EncodeThree(m, ops[0], ops[1], ops[2])
    else if |ops| == 4 then EncodeFour(m, ops[0], ops[1], ops[2], ops[3])
    else None
  }

  /** Reads a line as a mnemonic with operands and encodes it, if it can.
      This reading is lenient: it also takes spellings the decoder never
      prints, such as `SE V1,V2` or `SYS 0x0e0`. */
  function Parse(text: string): Option<nat> {
    var (m, ops) := Tokens(text);
    Encode(m, ops)
  }

  /** Parses a line back into the canonical word it is the text of. A parse
      is kept only when the decoder prints exactly that line for the word, so
      the ensures holds by this check; what is proved about parsing is
      `AssembleDecode` below: every printed line parses back. */
  function Assemble(text: string): (r: Option<Word>)
    ensures r.Some? ==> Decode(r.value) == text && Canonical(r.value) == r.value
  {
    match Parse(text)
    case Some(v) =>
      if v < 0x10000 && Decode(v) == text && Canonical(v) == v then Some(v) else None
    case None => None
  }

  /** A line that parses to the canonical word it is the text of assembles
      to that word. */
  lemma AssembleOf(text: string, w: Word)
    requires Parse(text) == Some(w) && Decode(w) == text && Canonical(w) == w
    ensures Assemble(text) == Some(w)
  {
  }

  /** A line rendered from a space-free mnemonic and comma-free operands
      parses as their encoding. */
  lemma ParseOf(m: string, ops: seq<string>, w: Word)
    requires ' ' !in m
    requires forall k :: 0 <= k < |ops| ==> ',' !in ops[k]
    requires Encode(m, ops) == Some(w)
    ensures Parse(Render(m, ops)) == Some(w)
  {
    TokensRender(m, ops);
  }

  // ----- Every line of the decoder parses back to its word. None of these
  // lemmas mentions Decode: they are about the shapes of the lines alone.

  lemma FixedParse(w: Word, m: string)
    requires Opcode(w) == 0x0
    requires (m == "CLS" && NNN(w) == 0x0e0) || (m == "RET" && NNN(w) == 0x0ee)
    ensures Parse(m) == Some(w) && Canonical(w) == w
  {
    Nibbles(w);
    ParseOf(m, [], w);
  }

  /** `SYS 0xnnn`, `JP 0xnnn` and `CALL 0xnnn`. */
  lemma JumpParse(w: Word, l1: string, m: string)
    requires || (l1 == "SYS 0x" && m == "SYS" && Opcode(w) == 0x0 && NNN(w) != 0x0e0 && NNN(w) != 0x0ee)
             || (l1 == "JP 0x" && m == "JP" && Opcode(w) == 0x1)
             || (l1 == "CALL 0x" && m == "CALL" && Opcode(w) == 0x2)
    ensures Parse(l1 + Addr3(w)) == Some(w) && Canonical(w) == w
  {
    var d := Addr3(w);
    Nibbles(w);
    AddrField("0x", w);
    NoComma("0x", d);
    LineA(l1, d, m, "0x");
    ParseOf(m, ["0x" + d], w);
  }

  /** `LD I, 0xnnn` and `LD V0, 0xnnn`. */
  lemma LoadAddressParse(w: Word, l1: string, o1: string)
    requires (l1 == "LD I, 0x" && o1 == "I" && Opcode(w) == 0xa)
          || (l1 == "LD V0, 0x" && o1 == "V0" && Opcode(w) == 0xb)
    ensures Parse(l1 + Addr3(w)) == Some(w) && Canonical(w) == w
  {
    var d := Addr3(w);
    Nibbles(w);
    AddrField("0x", w);
    NoComma("0x", d);
    FixedOperand(o1);
    LineB(l1, d, "LD", o1, "0x");
    ParseOf("LD", [o1, "0x" + d], w);
  }

  /** `I` is not a register operand, `V0` is register 0. */
  lemma FixedOperand(o1: string)
    requires o1 in {"I", "V0"}
    ensures Field(o1, "V", 1) == if o1 == "V0" then Some(0) else None
  {
  }

  /** `m Vx, 0xkk` for the mnemonics that take a register and a byte. */
  lemma ByteParse(w: Word, l1: string, m: string)
    requires || (l1 == "SE V" && m == "SE" && Opcode(w) == 0x3)
             || (l1 == "SNE V" && m == "SNE" && Opcode(w) == 0x4)
             || (l1 == "LD V" && m == "LD" && Opcode(w) == 0x6)
             || (l1 == "ADD V" && m == "ADD" && Opcode(w) == 0x7)
             || (l1 == "RND V" && m == "RND" && Opcode(w) == 0xc)
    ensures Parse(l1 + Nib(X(w)) + ", 0x" + Byte2(w)) == Some(w) && Canonical(w) == w
  {
    var x, b := Nib(X(w)), Byte2(w);
    Nibbles(w);
    NibField("V", X(w));
    ByteField("0x", w);
    NoComma("V", x);
    NoComma("0x", b);
    LineD(l1, x, ", 0x", b, m, "V", "0x");
    ParseOf(m, ["V" + x, "0x" + b], w);
  }

  /** `m Vx, Vy`: opcodes 5 and 9 and the valid opcode-8 lines. */
  lemma PairParse(w: Word, l1: string, m: string)
    requires l1 == m + " V"
    requires ' ' !in m && PairWord(m, X(w), Y(w)) == Some(Canonical(w))
    ensures Parse(l1 + Nib(X(w)) + ", V" + Nib(Y(w))) == Some(Canonical(w))
  {
    var x, y := Nib(X(w)), Nib(Y(w));
    NibField("V", X(w));
    NibField("V", Y(w));
    NoComma("V", x);
    NoComma("V", y);
    LineD(l1, x, ", V", y, m, "V", "V");
    ParseOf(m, ["V" + x, "V" + y], Canonical(w));
  }

  lemma RegisterPairParse(w: Word, l1: string, m: string)
    requires (l1 == "SE V" && m == "SE" && Opcode(w) == 0x5) || (l1 == "SNE V" && m == "SNE" && Opcode(w) == 0x9)
    ensures Parse(l1 + Nib(X(w)) + ", V" + Nib(Y(w))) == Some(Canonical(w))
    ensures Canonical(Canonical(w)) == Canonical(w)
  {
    Nibbles(w);
    PairParse(w, l1, m);
  }

  /** The mnemonic table of opcode 8 read backwards. */
  lemma ArithmeticNameNibble(n: nat)
    requires IsArithmetic(n)
    ensures ArithmeticNibble(ArithmeticName(n)) == Some(n)
    ensures ' ' !in ArithmeticName(n) && ArithmeticName(n) !in {"SE", "SNE"}
  {
  }

  lemma ArithmeticParse(w: Word)
    requires Opcode(w) == 0x8 && IsArithmetic(N(w))
    ensures Parse(ArithmeticName(N(w)) + " V" + Nib(X(w)) + ", V" + Nib(Y(w))) == Some(w)
    ensures Canonical(w) == w
  {
    ArithmeticNameNibble(N(w));
    Nibbles(w);
    PairParse(w, ArithmeticName(N(w)) + " V", ArithmeticName(N(w)));
  }

  /** The invalid-marker prefixes as a mnemonic, a first operand and the
      label of the second. */
  lemma MarkerLiterals()
    ensures "(invalid): opcode: 8, x: " == "(invalid):" + " " + "opcode: 8" + ", " + "x: "
    ensures "(invalid): opcode: e, x: " == "(invalid):" + " " + "opcode: e" + ", " + "x: "
    ensures "(invalid): opcode: f, x: " == "(invalid):" + " " + "opcode: f" + ", " + "x: "
  {
  }

  /** The marker line of opcode 8 with an unused low nibble. */
  lemma InvalidArithmeticParse(w: Word)
    requires Opcode(w) == 0x8
    ensures Parse("(invalid): opcode: 8, x: " + Nib(X(w)) + ", v: " + Nib(Y(w))
                  + ", sel: 0x" + Nib(N(w))) == Some(w)
    ensures Canonical(w) == w
  {
    var x, y, n := Nib(X(w)), Nib(Y(w)), Nib(N(w));
    Nibbles(w);
    NibField("x: ", X(w));
    NibField("v: ", Y(w));
    NibField("sel: 0x", N(w));
    NoComma("x: ", x);
    NoComma("v: ", y);
    NoComma("sel: 0x", n);
    MarkerLiterals();
    LineG("(invalid): opcode: 8, x: ", x, ", v: ", y, ", sel: 0x", n,
          "(invalid):", "opcode: 8", "x: ", "v: ", "sel: 0x");
    ParseOf("(invalid):", ["opcode: 8", "x: " + x, "v: " + y, "sel: 0x" + n], w);
  }

  /** `DRW Vx, Vy, 0x0n`. */
  lemma DrawParse(w: Word)
    requires Opcode(w) == 0xd
    ensures Parse("DRW V" + Nib(X(w)) + ", V" + Nib(Y(w)) + ", 0x" + ("0" + Nib(N(w)))) == Some(w)
    ensures Canonical(w) == w
  {
    var x, y, n := Nib(X(w)), Nib(Y(w)), "0" + Nib(N(w));
    Nibbles(w);
    NibField("V", X(w));
    NibField("V", Y(w));
    PaddedNibField("0x", N(w));
    NoComma("V", x);
    NoComma("V", y);
    NoComma("0x", n);
    LineF("DRW V", x, ", V", y, ", 0x", n, "DRW", "V", "V", "0x");
    ParseOf("DRW", ["V" + x, "V" + y, "0x" + n], w);
  }

  /** A nibble shown with two digits reads back as itself. */
  lemma PaddedNibField(prefix: string, v: nat)
    requires v < 16
    ensures IsHexString("0" + Nib(v))
    ensures Field(prefix + ("0" + Nib(v)), prefix, 2) == Some(v)
  {
    ZeroPadTwo(0, v);
    assert HexDigit(0) == '0';
    assert Pow16(2) == 256;
    ZeroPadExact(v, 2);
    FieldOf(prefix, "0" + Nib(v));
  }

  /** `SKP Vx` and `SKNP Vx`. */
  lemma KeyParse(w: Word, l1: string, m: string)
    requires Opcode(w) == 0xe
    requires (l1 == "SKP V" && m == "SKP" && KK(w) == 0x9e) || (l1 == "SKNP V" && m == "SKNP" && KK(w) == 0xa1)
    ensures Parse(l1 + Nib(X(w))) == Some(w) && Canonical(w) == w
  {
    var x := Nib(X(w));
    Nibbles(w);
    NibField("V", X(w));
    NoComma("V", x);
    LineA(l1, x, m, "V");
    ParseOf(m, ["V" + x], w);
  }

  /** The marker line of opcode E with an unused byte. */
  lemma InvalidKeyParse(w: Word)
    requires Opcode(w) == 0xe
    ensures Parse("(invalid): opcode: e, x: " + Nib(X(w)) + ", 0x" + Byte2(w)) == Some(w)
    ensures Canonical(w) == w
  {
    var x, b := Nib(X(w)), Byte2(w);
    Nibbles(w);
    NibField("x: ", X(w));
    ByteField("0x", w);
    NoComma("x: ", x);
    NoComma("0x", b);
    MarkerLiterals();
    LineE("(invalid): opcode: e, x: ", x, ", 0x", b, "(invalid):", "opcode: e", "x: ", "0x");
    ParseOf("(invalid):", ["opcode: e", "x: " + x, "0x" + b], w);
  }

  /** `LD Vx, DT`, `LD Vx, K` and `LD Vx, [I]`. */
  lemma MiscFromParse(w: Word, l2: string, o2: string)
    requires Opcode(w) == 0xf
    requires || (l2 == ", DT" && o2 == "DT" && KK(w) == 0x07)
             || (l2 == ", K" && o2 == "K" && KK(w) == 0x0a)
             || (l2 == ", [I]" && o2 == "[I]" && KK(w) == 0x65)
    ensures Parse("LD V" + Nib(X(w)) + l2) == Some(w) && Canonical(w) == w
  {
    var x := Nib(X(w));
    Nibbles(w);
    NibField("V", X(w));
    NoComma("V", x);
    assert Field(o2, "0x", 2) == None && Field(o2, "V", 1) == None && Field(o2, "0x", 3) == None;
    LineC("LD V", x, l2, "LD", "V", o2);
    ParseOf("LD", ["V" + x, o2], w);
  }

  /** `LD DT, Vx`, `LD ST, Vx`, `ADD I, Vx`, `LD F, Vx`, `LD B, Vx` and
      `LD [I], Vx`. */
  lemma MiscToParse(w: Word, l1: string, m: string, o1: string)
    requires Opcode(w) == 0xf
    requires || (l1 == "LD DT, V" && m == "LD" && o1 == "DT" && KK(w) == 0x15)
             || (l1 == "LD ST, V" && m == "LD" && o1 == "ST" && KK(w) == 0x18)
             || (l1 == "ADD I, V" && m == "ADD" && o1 == "I" && KK(w) == 0x1e)
             || (l1 == "LD F, V" && m == "LD" && o1 == "F" && KK(w) == 0x29)
             || (l1 == "LD B, V" && m == "LD" && o1 == "B" && KK(w) == 0x33)
             || (l1 == "LD [I], V" && m == "LD" && o1 == "[I]" && KK(w) == 0x55)
    ensures Parse(l1 + Nib(X(w))) == Some(w) && Canonical(w) == w
  {
    var x := Nib(X(w));
    Nibbles(w);
    NibField("V", X(w));
    NoComma("V", x);
    assert Field(o1, "V", 1) == None;
    LineB(l1, x, m, o1, "V");
    ParseOf(m, [o1, "V" + x], w);
  }

  /** The marker line of opcode F with an unused byte. */
  lemma InvalidMiscParse(w: Word)
    requires Opcode(w) == 0xf
    ensures Parse("(invalid): opcode: f, x: " + Nib(X(w)) + ", sel: 0x" + Byte2(w)) == Some(w)
    ensures Canonical(w) == w
  {
    var x, b := Nib(X(w)), Byte2(w);
    Nibbles(w);
    NibField("x: ", X(w));
    ByteField("sel: 0x", w);
    NoComma("x: ", x);
    NoComma("sel: 0x", b);
    MarkerLiterals();
    LineE("(invalid): opcode: f, x: ", x, ", sel: 0x", b, "(invalid):", "opcode: f", "x: ", "sel: 0x");
    ParseOf("(invalid):", ["opcode: f", "x: " + x, "sel: 0x" + b], w);
  }

  // ----- Every decoded line assembles back to its word

  lemma AssembleSystem(w: Word)
    requires Opcode(w) == 0x0
    ensures Assemble(Decode(w)) == Some(w)
  {
    DecodeSystem(w);
    if NNN(w) == 0x0e0 {
      FixedParse(w, "CLS");
      AssembleOf("CLS", w);
    } else if NNN(w) == 0x0ee {
      FixedParse(w, "RET");
      AssembleOf("RET", w);
    } else {
      JumpParse(w, "SYS 0x", "SYS");
      AssembleOf("SYS 0x" + Addr3(w), w);
    }
  }

  lemma AssembleAddress(w: Word)
    requires Opcode(w) in {0x1, 0x2, 0xa, 0xb}
    ensures Assemble(Decode(w)) == Some(w)
  {
    var d := Addr3(w);
    DecodeAddress(w);
    if Opcode(w) == 0x1 {
      JumpParse(w, "JP 0x", "JP");
      AssembleOf("JP 0x" + d, w);
    } else if Opcode(w) == 0x2 {
      JumpParse(w, "CALL 0x", "CALL");
      AssembleOf("CALL 0x" + d, w);
    } else if Opcode(w) == 0xa {
      LoadAddressParse(w, "LD I, 0x", "I");
      AssembleOf("LD I, 0x" + d, w);
    } else {
      LoadAddressParse(w, "LD V0, 0x", "V0");
      AssembleOf("LD V0, 0x" + d, w);
    }
  }

  lemma AssembleRegisterByte(w: Word)
    requires Opcode(w) in {0x3, 0x4, 0x6, 0x7, 0xc}
    ensures Assemble(Decode(w)) == Some(w)
  {
    var x, b := Nib(X(w)), Byte2(w);
    DecodeRegisterByte(w);
    if Opcode(w) == 0x3 {
      ByteParse(w, "SE V", "SE");
      AssembleOf("SE V" + x + ", 0x" + b, w);
    } else if Opcode(w) == 0x4 {
      ByteParse(w, "SNE V", "SNE");
      AssembleOf("SNE V" + x + ", 0x" + b, w);
    } else if Opcode(w) == 0x6 {
      ByteParse(w, "LD V", "LD");
      AssembleOf("LD V" + x + ", 0x" + b, w);
    } else if Opcode(w) == 0x7 {
      ByteParse(w, "ADD V", "ADD");
      AssembleOf("ADD V" + x + ", 0x" + b, w);
    } else {
      ByteParse(w, "RND V", "RND");
      AssembleOf("RND V" + x + ", 0x" + b, w);
    }
  }

  lemma AssembleRegisterPair(w: Word)
    requires Opcode(w) in {0x5, 0x9}
    ensures Assemble(Decode(w)) == Some(Canonical(w))
  {
    var c := Canonical(w);
    var x, y := Nib(X(w)), Nib(Y(w));
    DecodeRegisterPair(w);
    DecodeRegisterPair(c);
    if Opcode(w) == 0x5 {
      RegisterPairParse(w, "SE V", "SE");
      AssembleOf("SE V" + x + ", V" + y, c);
    } else {
      RegisterPairParse(w, "SNE V", "SNE");
      AssembleOf("SNE V" + x + ", V" + y, c);
    }
  }

  lemma AssembleArithmetic(w: Word)
    requires Opcode(w) == 0x8
    ensures Assemble(Decode(w)) == Some(w)
  {
    var x, y := Nib(X(w)), Nib(Y(w));
    DecodeArithmetic(w);
    if IsArithmetic(N(w)) {
      ArithmeticParse(w);
      AssembleOf(ArithmeticName(N(w)) + " V" + x + ", V" + y, w);
    } else {
      InvalidArithmeticParse(w);
      AssembleOf("(invalid): opcode: 8, x: " + x + ", v: " + y + ", sel: 0x" + Nib(N(w)), w);
    }
  }

  lemma AssembleDraw(w: Word)
    requires Opcode(w) == 0xd
    ensures Assemble(Decode(w)) == Some(w)
  {
    DecodeDraw(w);
    DrawParse(w);
    AssembleOf("DRW V" + Nib(X(w)) + ", V" + Nib(Y(w)) + ", 0x" + ("0" + Nib(N(w))), w);
  }

  lemma AssembleKeys(w: Word)
    requires Opcode(w) == 0xe
    ensures Assemble(Decode(w)) == Some(w)
  {
    var x := Nib(X(w));
    DecodeKeys(w);
    if KK(w) == 0x9e {
      KeyParse(w, "SKP V", "SKP");
      AssembleOf("SKP V" + x, w);
    } else if KK(w) == 0xa1 {
      KeyParse(w, "SKNP V", "SKNP");
      AssembleOf("SKNP V" + x, w);
    } else {
      InvalidKeyParse(w);
      AssembleOf("(invalid): opcode: e, x: " + x + ", 0x" + Byte2(w), w);
    }
  }

  lemma AssembleMisc(w: Word)
    requires Opcode(w) == 0xf
    ensures Assemble(Decode(w)) == Some(w)
  {
    var kk := KK(w);
    if kk in {0x07, 0x0a, 0x65} {
      AssembleMiscFrom(w);
    } else if kk in {0x15, 0x18, 0x1e} {
      AssembleMiscTo(w);
    } else if kk in {0x29, 0x33, 0x55} {
      AssembleMiscMemory(w);
    } else {
      DecodeMisc(w);
      InvalidMiscParse(w);
      AssembleOf("(invalid): opcode: f, x: " + Nib(X(w)) + ", sel: 0x" + Byte2(w), w);
    }
  }

  lemma AssembleMiscFrom(w: Word)
    requires Opcode(w) == 0xf && KK(w) in {0x07, 0x0a, 0x65}
    ensures Assemble(Decode(w)) == Some(w)
  {
    var x := Nib(X(w));
    DecodeMisc(w);
    if KK(w) == 0x07 {
      MiscFromParse(w, ", DT", "DT");
      AssembleOf("LD V" + x + ", DT", w);
    } else if KK(w) == 0x0a {
      MiscFromParse(w, ", K", "K");
      AssembleOf("LD V" + x + ", K", w);
    } else {
      MiscFromParse(w, ", [I]", "[I]");
      AssembleOf("LD V" + x + ", [I]", w);
    }
  }

  lemma AssembleMiscTo(w: Word)
    requires Opcode(w) == 0xf && KK(w) in {0x15, 0x18, 0x1e}
    ensures Assemble(Decode(w)) == Some(w)
  {
    var x := Nib(X(w));
    DecodeMisc(w);
    if KK(w) == 0x15 {
      MiscToParse(w, "LD DT, V", "LD", "DT");
      AssembleOf("LD DT, V" + x, w);
    } else if KK(w) == 0x18 {
      MiscToParse(w, "LD ST, V", "LD", "ST");
      AssembleOf("LD ST, V" + x, w);
    } else {
      MiscToParse(w, "ADD I, V", "ADD", "I");
      AssembleOf("ADD I, V" + x, w);
    }
  }

  lemma AssembleMiscMemory(w: Word)
    requires Opcode(w) == 0xf && KK(w) in {0x29, 0x33, 0x55}
    ensures Assemble(Decode(w)) == Some(w)
  {
    var x := Nib(X(w));
    DecodeMisc(w);
    if KK(w) == 0x29 {
      MiscToParse(w, "LD F, V", "LD", "F");
      AssembleOf("LD F, V" + x, w);
    } else if KK(w) == 0x33 {
      MiscToParse(w, "LD B, V", "LD", "B");
      AssembleOf("LD B, V" + x, w);
    } else {
      MiscToParse(w, "LD [I], V", "LD", "[I]");
      AssembleOf("LD [I], V" + x, w);
    }
  }

  // ----- What the decoder's text determines

  /** Every word's text assembles back to the word, less the low nibble of
      opcodes 5 and 9, which the text does not show. */
  lemma AssembleDecode(w: Word)
    ensures Assemble(Decode(w)) == Some(Canonical(w))
  {
    var op := Opcode(w);
    if op == 0x0 {
      AssembleSystem(w);
    } else if op in {0x1, 0x2, 0xa, 0xb} {
      AssembleAddress(w);
    } else if op in {0x3, 0x4, 0x6, 0x7, 0xc} {
      AssembleRegisterByte(w);
    } else if op in {0x5, 0x9} {
      AssembleRegisterPair(w);
    } else if op == 0x8 {
      AssembleArithmetic(w);
    } else if op == 0xd {
      AssembleDraw(w);
    } else if op == 0xe {
      AssembleKeys(w);
    } else {
      AssembleMisc(w);
    }
  }

  /** Two words print the same text exactly when they differ at most in the
      bits the text does not show. */
  lemma DecodeInjective(a: Word, b: Word)
    ensures Decode(a) == Decode(b) <==> Canonical(a) == Canonical(b)
  {
    AssembleDecode(a);
    AssembleDecode(b);
    DecodeCanonical(a);
    DecodeCanonical(b);
  }

  /** The assembler accepts exactly the texts the decoder prints. */
  lemma AssembleAcceptsDecoded(text: string)
    ensures Assemble(text).Some? <==> exists w: Word :: Decode(w) == text
  {
    if w: Word :| Decode(w) == text {
      AssembleDecode(w);
    }
  }
}
