/** The Chip-8 instruction decoder: every 16-bit instruction word is mapped to
    the text of its mnemonic. */
module Chip8 {
  import opened Hex
  import opened Strings

  /** An unsigned 16-bit instruction word (Rust `u16`). */
  type Word = w: nat | w < 0x10000

  // Bit fields of a word. For an unsigned value, masking with 0xf000 and
  // shifting right by 12 is division by 0x1000, and so on for the others.

  /** Bits 12-15: `(instruction & 0xf000) >> 12`. */
  function Opcode(w: Word): (op: nat)
    ensures op < 16
  {
    w / 0x1000
  }

  /** Bits 8-11: `(instruction >> 8) & 0x000f`. */
  function X(w: Word): (x: nat)
    ensures x < 16
  {
    (w / 0x100) % 0x10
  }

  /** Bits 4-7: `(instruction >> 4) & 0x000f`. Rust's `>>` binds tighter
      than `&`, so the form without parentheses at src/main.rs:78 means the
      same. */
  function Y(w: Word): (y: nat)
    ensures y < 16
  {
    (w / 0x10) % 0x10
  }

  /** Bits 0-3: `instruction & 0x000f`. */
  function N(w: Word): (n: nat)
    ensures n < 16
  {
    w % 0x10
  }

  /** Bits 0-7: `instruction & 0x00ff`. */
  function KK(w: Word): (kk: nat)
    ensures kk < 0x100
  {
    w % 0x100
  }

  /** Bits 0-11: `instruction & 0x0fff`. */
  function NNN(w: Word): (nnn: nat)
    ensures nnn < 0x1000
  {
    w % 0x1000
  }

  /** The four nibbles make up the word, and the byte and address fields are
      made of the lower nibbles. */
  lemma Nibbles(w: Word)
    ensures w == Opcode(w) * 0x1000 + X(w) * 0x100 + Y(w) * 0x10 + N(w)
    ensures NNN(w) == X(w) * 0x100 + KK(w)
    ensures KK(w) == Y(w) * 0x10 + N(w)
  {
    DivMod16(w, 1);
    DivMod16(w, 0x10);
    DivMod16(w, 0x100);
  }

  /** Splitting off one more hex digit below the `d` place. */
  lemma DivMod16(w: nat, d: nat)
    requires d in {1, 0x10, 0x100}
    ensures w / (16 * d) == (w / d) / 16
    ensures w % (16 * d) == d * ((w / d) % 16) + w % d
  {
    var q := w / (16 * d);
    var r := w % (16 * d);
    assert w == 16 * d * q + r && r < 16 * d;
    assert w / d == 16 * q + r / d;
  }

  /** The mnemonic text of an instruction word; every word has one. */
  function Decode(instruction: Word): (r: string)
    ensures r != []
  {
    var opcode := Opcode(instruction);
    match opcode
    case 0x0 =>
      var lnibbles := NNN(instruction);
      if lnibbles == 0x0e0 then "CLS"
      else if lnibbles == 0x0ee then "RET"
      else "SYS 0x" + ZeroPad(lnibbles, 3)
    case 0x1 =>
      "JP 0x" + ZeroPad(NNN(instruction), 3)
    case 0x2 =>
      "CALL 0x" + ZeroPad(NNN(instruction), 3)
    case 0x3 =>
      "SE V" + ToHex(X(instruction)) + ", 0x" + ZeroPad(KK(instruction), 2)
    case 0x4 =>
      "SNE V" + ToHex(X(instruction)) + ", 0x" + ZeroPad(KK(instruction), 2)
    case 0x5 =>
      "SE V" + ToHex(X(instruction)) + ", V" + ToHex(Y(instruction))
    case 0x6 =>
      "LD V" + ToHex(X(instruction)) + ", 0x" + ZeroPad(KK(instruction), 2)
    case 0x7 =>
      "ADD V" + ToHex(X(instruction)) + ", 0x" + ZeroPad(KK(instruction), 2)
    case 0x8 =>
      var x, y, n := X(instruction), Y(instruction), N(instruction);
      match n {
      case 0x0 => "LD V" + ToHex(x) + ", V" + ToHex(y)
      case 0x1 => "OR V" + ToHex(x) + ", V" + ToHex(y)
      case 0x2 => "AND V" + ToHex(x) + ", V" + ToHex(y)
      case 0x3 => "XOR V" + ToHex(x) + ", V" + ToHex(y)
      case 0x4 => "ADD V" + ToHex(x) + ", V" + ToHex(y)
      case 0x5 => "SUB V" + ToHex(x) + ", V" + ToHex(y)
      case 0x6 => "SHR V" + ToHex(x) + ", V" + ToHex(y)
      case 0x7 => "SUBN V" + ToHex(x) + ", V" + ToHex(y)
      case 0xe => "SHL V" + ToHex(x) + ", V" + ToHex(y)
      case _ =>
        "(invalid): opcode: 8, x: " + ToHex(x) + ", v: " + ToHex(y)
        + ", sel: 0x" + PadLeft(ToHex(n), 1, ' ')
      }
    case 0x9 =>
      "SNE V" + ToHex(X(instruction)) + ", V" + ToHex(Y(instruction))
    case 0xa =>
      "LD I, 0x" + ZeroPad(NNN(instruction), 3)
    case 0xb =>
      // printed as LD, not JP
      "LD V0, 0x" + ZeroPad(NNN(instruction), 3)
    case 0xc =>
      "RND V" + ToHex(X(instruction)) + ", 0x" + ZeroPad(KK(instruction), 2)
    case 0xd =>
      var x, y, n := X(instruction), Y(instruction), N(instruction);
      "DRW V" + ToHex(x) + ", V" + ToHex(y) + ", 0x" + ZeroPad(n, 2)
    case 0xe =>
      var x, kk := X(instruction), KK(instruction);
      match kk {
      case 0x9e => "SKP V" + ToHex(x)
      case 0xa1 => "SKNP V" + ToHex(x)
      case _ => "(invalid): opcode: e, x: " + ToHex(x) + ", 0x" + ZeroPad(kk, 2)
      }
    case 0xf =>
      var x, kk := X(instruction), KK(instruction);
      match kk {
      case 0x07 => "LD V" + ToHex(x) + ", DT"
      case 0x0a => "LD V" + ToHex(x) + ", K"
      case 0x15 => "LD DT, V" + ToHex(x)
      case 0x18 => "LD ST, V" + ToHex(x)
      case 0x1e => "ADD I, V" + ToHex(x)
      case 0x29 => "LD F, V" + ToHex(x)
      case 0x33 => "LD B, V" + ToHex(x)
      case 0x55 => "LD [I], V" + ToHex(x)
      case 0x65 => "LD V" + ToHex(x) + ", [I]"
      case _ => "(invalid): opcode: f, x: " + ToHex(x) + ", sel: 0x" + ZeroPad(kk, 2)
      }
    case _ =>
      // the sixteen arms above cover every value of a 4-bit opcode
      assert false; ""
  }

  /** One lowercase hex digit, as `{:x}` shows a value below 16. */
  function Nib(v: nat): string
    requires v < 16
  {
    [HexDigit(v)]
  }

  /** The three digits of the address field, one per nibble. */
  function Addr3(w: Word): string {
    Nib(X(w)) + Nib(Y(w)) + Nib(N(w))
  }

  /** The two digits of the byte field, one per nibble. */
  function Byte2(w: Word): string {
    Nib(Y(w)) + Nib(N(w))
  }

  /** The word with the bits its mnemonic does not show cleared: opcodes 5
      and 9 do not look at their low nibble. */
  function Canonical(w: Word): (c: Word)
    ensures Opcode(c) == Opcode(w) && X(c) == X(w) && Y(c) == Y(w)
    ensures N(c) == if Opcode(w) == 5 || Opcode(w) == 9 then 0 else N(w)
  {
    if Opcode(w) == 5 || Opcode(w) == 9 then w - N(w) else w
  }

  lemma AddressDigits(w: Word)
    ensures ZeroPad(NNN(w), 3) == Addr3(w)
  {
    Nibbles(w);
    ZeroPadThree(X(w), Y(w), N(w));
  }

  lemma ByteDigits(w: Word)
    ensures ZeroPad(KK(w), 2) == Byte2(w)
  {
    Nibbles(w);
    ZeroPadTwo(Y(w), N(w));
  }

  // The lemmas below give the text of every arm of Decode with each field
  // written out digit by digit: a register is one digit, a byte two and an
  // address three, all lowercase.

  /** Opcode 0: CLS and RET on the two special addresses, otherwise SYS with
      the address. */
  lemma DecodeSystem(w: Word)
    requires Opcode(w) == 0
    ensures Decode(w) == if NNN(w) == 0x0e0 then "CLS"
                         else if NNN(w) == 0x0ee then "RET"
                         else "SYS 0x" + Addr3(w)
  {
    AddressDigits(w);
  }

  /** Opcodes 1, 2, A and B: a jump, a call, or a load of the address; B
      names V0 ahead of the address and is printed as LD. */
  lemma DecodeAddress(w: Word)
    requires Opcode(w) in {0x1, 0x2, 0xa, 0xb}
    ensures Opcode(w) == 0x1 ==> Decode(w) == "JP 0x" + Addr3(w)
    ensures Opcode(w) == 0x2 ==> Decode(w) == "CALL 0x" + Addr3(w)
    ensures Opcode(w) == 0xa ==> Decode(w) == "LD I, 0x" + Addr3(w)
    ensures Opcode(w) == 0xb ==> Decode(w) == "LD V0, 0x" + Addr3(w)
  {
    var op := Opcode(w);
    AddressDigits(w);
    if op == 0x1 {
      JumpArm(w);
    } else if op == 0x2 {
      CallArm(w);
    } else if op == 0xa {
      LoadIndexArm(w);
    } else {
      JumpOffsetArm(w);
    }
  }

  // JumpArm, CallArm, LoadIndexArm and JumpOffsetArm each unfold one arm of
  // Decode and nothing else; they keep DecodeAddress from having to unfold
  // them all in one proof.

  lemma JumpArm(w: Word)
    requires Opcode(w) == 0x1
    ensures Decode(w) == "JP 0x" + ZeroPad(NNN(w), 3)
  {
  }

  lemma CallArm(w: Word)
    requires Opcode(w) == 0x2
    ensures Decode(w) == "CALL 0x" + ZeroPad(NNN(w), 3)
  {
  }

  lemma LoadIndexArm(w: Word)
    requires Opcode(w) == 0xa
    ensures Decode(w) == "LD I, 0x" + ZeroPad(NNN(w), 3)
  {
  }

  lemma JumpOffsetArm(w: Word)
    requires Opcode(w) == 0xb
    ensures Decode(w) == "LD V0, 0x" + ZeroPad(NNN(w), 3)
  {
  }

  /** Opcodes 3, 4, 6, 7 and C: register Vx and the byte kk. */
  lemma DecodeRegisterByte(w: Word)
    requires Opcode(w) in {0x3, 0x4, 0x6, 0x7, 0xc}
    ensures Opcode(w) == 0x3 ==> Decode(w) == "SE V" + Nib(X(w)) + ", 0x" + Byte2(w)
    ensures Opcode(w) == 0x4 ==> Decode(w) == "SNE V" + Nib(X(w)) + ", 0x" + Byte2(w)
    ensures Opcode(w) == 0x6 ==> Decode(w) == "LD V" + Nib(X(w)) + ", 0x" + Byte2(w)
    ensures Opcode(w) == 0x7 ==> Decode(w) == "ADD V" + Nib(X(w)) + ", 0x" + Byte2(w)
    ensures Opcode(w) == 0xc ==> Decode(w) == "RND V" + Nib(X(w)) + ", 0x" + Byte2(w)
  {
    var op, x, b := Opcode(w), ToHex(X(w)), ZeroPad(KK(w), 2);
    if op == 0x3 {
      assert Decode(w) == "SE V" + x + ", 0x" + b;
    } else if op == 0x4 {
      assert Decode(w) == "SNE V" + x + ", 0x" + b;
    } else if op == 0x6 {
      assert Decode(w) == "LD V" + x + ", 0x" + b;
    } else if op == 0x7 {
      assert Decode(w) == "ADD V" + x + ", 0x" + b;
    } else {
      assert Decode(w) == "RND V" + x + ", 0x" + b;
    }
    ByteDigits(w);
    SingleDigit(X(w));
  }

  /** Opcodes 5 and 9: registers Vx and Vy; the low nibble is not shown. */
  lemma DecodeRegisterPair(w: Word)
    requires Opcode(w) in {0x5, 0x9}
    ensures Opcode(w) == 0x5 ==> Decode(w) == "SE V" + Nib(X(w)) + ", V" + Nib(Y(w))
    ensures Opcode(w) == 0x9 ==> Decode(w) == "SNE V" + Nib(X(w)) + ", V" + Nib(Y(w))
  {
    var x, y := ToHex(X(w)), ToHex(Y(w));
    if Opcode(w) == 0x5 {
      assert Decode(w) == "SE V" + x + ", V" + y;
      SingleDigit(X(w));
      SingleDigit(Y(w));
    } else {
      assert Decode(w) == "SNE V" + x + ", V" + y;
      SingleDigit(X(w));
      SingleDigit(Y(w));
    }
  }

  /** The mnemonics of opcode 8 by low nibble, for the nine nibbles it accepts. */
  function ArithmeticName(n: nat): string {
    match n
    case 0x0 => "LD"
    case 0x1 => "OR"
    case 0x2 => "AND"
    case 0x3 => "XOR"
    case 0x4 => "ADD"
    case 0x5 => "SUB"
    case 0x6 => "SHR"
    case 0x7 => "SUBN"
    case 0xe => "SHL"
    case _ => ""
  }

  predicate IsArithmetic(n: nat) {
    n <= 7 || n == 0xe
  }

  /** Opcode 8: the nine register-pair operations, and for the seven other low
      nibbles an invalid marker that shows x, y and n. */
  lemma DecodeArithmetic(w: Word)
    requires Opcode(w) == 0x8
    ensures IsArithmetic(N(w)) ==>
              Decode(w) == ArithmeticName(N(w)) + " V" + Nib(X(w)) + ", V" + Nib(Y(w))
    ensures !IsArithmetic(N(w)) ==>
              Decode(w) == "(invalid): opcode: 8, x: " + Nib(X(w)) + ", v: " + Nib(Y(w))
                           + ", sel: 0x" + Nib(N(w))
  {
    var x, y, n := ToHex(X(w)), ToHex(Y(w)), N(w);
    assert x == Nib(X(w)) by { SingleDigit(X(w)); }
    assert y == Nib(Y(w)) by { SingleDigit(Y(w)); }
    if IsArithmetic(n) {
      assert Decode(w) == ArithmeticName(n) + " V" + x + ", V" + y;
    } else {
      var sel := PadLeft(ToHex(n), 1, ' ');
      assert sel == Nib(n) by { SingleDigit(n); }
      assert Decode(w) == "(invalid): opcode: 8, x: " + x + ", v: " + y + ", sel: 0x" + sel;
    }
  }

  /** Opcode D: two registers and the 4-bit sprite height, padded to two digits. */
  lemma DecodeDraw(w: Word)
    requires Opcode(w) == 0xd
    ensures Decode(w) == "DRW V" + Nib(X(w)) + ", V" + Nib(Y(w)) + ", 0x" + ("0" + Nib(N(w)))
  {
    var x, y, n := ToHex(X(w)), ToHex(Y(w)), ZeroPad(N(w), 2);
    assert Decode(w) == "DRW V" + x + ", V" + y + ", 0x" + n;
    SingleDigit(X(w));
    SingleDigit(Y(w));
    ZeroPadTwo(0, N(w));
  }

  /** Opcode E: SKP and SKNP on the bytes 9e and a1, an invalid marker
      showing x and kk otherwise. */
  lemma DecodeKeys(w: Word)
    requires Opcode(w) == 0xe
    ensures KK(w) == 0x9e ==> Decode(w) == "SKP V" + Nib(X(w))
    ensures KK(w) == 0xa1 ==> Decode(w) == "SKNP V" + Nib(X(w))
    ensures KK(w) !in {0x9e, 0xa1} ==>
              Decode(w) == "(invalid): opcode: e, x: " + Nib(X(w)) + ", 0x" + Byte2(w)
  {
    KeysTable(w);
    assert ToHex(X(w)) == Nib(X(w)) by { SingleDigit(X(w)); }
    assert ZeroPad(KK(w), 2) == Byte2(w) by { ByteDigits(w); }
  }

  /** The three arms of opcode E, before their digits are written out; it
      only unfolds Decode, apart from the digit lemmas DecodeKeys applies. */
  lemma KeysTable(w: Word)
    requires Opcode(w) == 0xe
    ensures KK(w) == 0x9e ==> Decode(w) == "SKP V" + ToHex(X(w))
    ensures KK(w) == 0xa1 ==> Decode(w) == "SKNP V" + ToHex(X(w))
    ensures KK(w) !in {0x9e, 0xa1} ==>
              Decode(w) == "(invalid): opcode: e, x: " + ToHex(X(w)) + ", 0x" + ZeroPad(KK(w), 2)
  {
    if KK(w) !in {0x9e, 0xa1} {
      KeysInvalid(w);
    }
  }

  /** Unfolds the invalid-marker arm of opcode E alone. */
  lemma KeysInvalid(w: Word)
    requires Opcode(w) == 0xe && KK(w) != 0x9e && KK(w) != 0xa1
    ensures Decode(w) == "(invalid): opcode: e, x: " + ToHex(X(w)) + ", 0x" + ZeroPad(KK(w), 2)
  {
  }

  predicate IsMisc(kk: nat) {
    kk in {0x07, 0x0a, 0x15, 0x18, 0x1e, 0x29, 0x33, 0x55, 0x65}
  }

  /** The nine valid F instructions, before their register digit is written
      out: this only unfolds Decode, so that DecodeMisc can then rewrite the
      digit once for all nine. */
  lemma DecodeMiscTable(w: Word)
    requires Opcode(w) == 0xf
    ensures KK(w) == 0x07 ==> Decode(w) == "LD V" + ToHex(X(w)) + ", DT"
    ensures KK(w) == 0x0a ==> Decode(w) == "LD V" + ToHex(X(w)) + ", K"
    ensures KK(w) == 0x15 ==> Decode(w) == "LD DT, V" + ToHex(X(w))
    ensures KK(w) == 0x18 ==> Decode(w) == "LD ST, V" + ToHex(X(w))
    ensures KK(w) == 0x1e ==> Decode(w) == "ADD I, V" + ToHex(X(w))
    ensures KK(w) == 0x29 ==> Decode(w) == "LD F, V" + ToHex(X(w))
    ensures KK(w) == 0x33 ==> Decode(w) == "LD B, V" + ToHex(X(w))
    ensures KK(w) == 0x55 ==> Decode(w) == "LD [I], V" + ToHex(X(w))
    ensures KK(w) == 0x65 ==> Decode(w) == "LD V" + ToHex(X(w)) + ", [I]"
  {
  }

  /** Opcode F: the timer, key, font, BCD and memory instructions with their
      fixed operand order, an invalid marker showing x and kk for other bytes. */
  lemma DecodeMisc(w: Word)
    requires Opcode(w) == 0xf
    ensures KK(w) == 0x07 ==> Decode(w) == "LD V" + Nib(X(w)) + ", DT"
    ensures KK(w) == 0x0a ==> Decode(w) == "LD V" + Nib(X(w)) + ", K"
    ensures KK(w) == 0x15 ==> Decode(w) == "LD DT, V" + Nib(X(w))
    ensures KK(w) == 0x18 ==> Decode(w) == "LD ST, V" + Nib(X(w))
    ensures KK(w) == 0x1e ==> Decode(w) == "ADD I, V" + Nib(X(w))
    ensures KK(w) == 0x29 ==> Decode(w) == "LD F, V" + Nib(X(w))
    ensures KK(w) == 0x33 ==> Decode(w) == "LD B, V" + Nib(X(w))
    ensures KK(w) == 0x55 ==> Decode(w) == "LD [I], V" + Nib(X(w))
    ensures KK(w) == 0x65 ==> Decode(w) == "LD V" + Nib(X(w)) + ", [I]"
    ensures !IsMisc(KK(w)) ==>
              Decode(w) == "(invalid): opcode: f, x: " + Nib(X(w)) + ", sel: 0x" + Byte2(w)
  {
    var kk, x := KK(w), ToHex(X(w));
    if IsMisc(kk) {
      DecodeMiscTable(w);
      SingleDigit(X(w));
    } else {
      var b := ZeroPad(kk, 2);
      assert Decode(w) == "(invalid): opcode: f, x: " + x + ", sel: 0x" + b;
      ByteDigits(w);
      SingleDigit(X(w));
    }
  }

  /** The bits Canonical clears do not show in the text. */
  lemma DecodeCanonical(w: Word)
    ensures Decode(Canonical(w)) == Decode(w)
  {
    if Opcode(w) == 0x5 || Opcode(w) == 0x9 {
      DecodeRegisterPair(w);
      DecodeRegisterPair(Canonical(w));
    }
  }

  /** The digit strings of a word contain no line break. */
  lemma DigitsOneLine(w: Word)
    ensures '\n' !in Nib(X(w)) && '\n' !in Nib(Y(w)) && '\n' !in Nib(N(w))
    ensures '\n' !in Byte2(w) && '\n' !in Addr3(w)
  {
  }

  /** Every text is a single line: there is no line break in it, so the
      listing has exactly one line per instruction. */
  lemma DecodeOneLine(w: Word)
    ensures '\n' !in Decode(w)
  {
    var op := Opcode(w);
    if op == 0x0 {
      SystemOneLine(w);
    } else if op in {0x1, 0x2, 0xa, 0xb} {
      AddressOneLine(w);
    } else if op in {0x3, 0x4, 0x6, 0x7, 0xc} {
      RegisterByteOneLine(w);
    } else if op in {0x5, 0x9, 0xd, 0xe} {
      RegistersOneLine(w);
    } else if op == 0x8 {
      ArithmeticOneLine(w);
    } else {
      MiscOneLine(w);
    }
  }

  lemma SystemOneLine(w: Word)
    requires Opcode(w) == 0x0
    ensures '\n' !in Decode(w)
  {
    DecodeSystem(w);
    if NNN(w) != 0x0e0 && NNN(w) != 0x0ee {
      DigitsOneLine(w);
      SysOneLine(Addr3(w));
    }
  }

  lemma SysOneLine(d: string)
    requires '\n' !in d
    ensures '\n' !in "SYS 0x" + d
  {
  }

  lemma AddressOneLine(w: Word)
    requires Opcode(w) in {0x1, 0x2, 0xa, 0xb}
    ensures '\n' !in Decode(w)
  {
    DigitsOneLine(w);
    AddressTexts(Addr3(w));
    DecodeAddress(w);
  }

  lemma RegistersOneLine(w: Word)
    requires Opcode(w) in {0x5, 0x9, 0xd, 0xe}
    ensures '\n' !in Decode(w)
  {
    DigitsOneLine(w);
    if Opcode(w) in {0x5, 0x9} {
      RegisterPairTexts(Nib(X(w)), Nib(Y(w)));
      DecodeRegisterPair(w);
    } else if Opcode(w) == 0xd {
      DrawText(Nib(X(w)), Nib(Y(w)), Nib(N(w)));
      DecodeDraw(w);
    } else {
      KeysTexts(Nib(X(w)), Byte2(w));
      DecodeKeys(w);
    }
  }

  lemma RegisterByteOneLine(w: Word)
    requires Opcode(w) in {0x3, 0x4, 0x6, 0x7, 0xc}
    ensures '\n' !in Decode(w)
  {
    DigitsOneLine(w);
    RegisterByteTexts(Nib(X(w)), Byte2(w));
    DecodeRegisterByte(w);
  }

  lemma ArithmeticOneLine(w: Word)
    requires Opcode(w) == 0x8
    ensures '\n' !in Decode(w)
  {
    DigitsOneLine(w);
    ArithmeticTexts(ArithmeticName(N(w)), Nib(X(w)), Nib(Y(w)), Nib(N(w)));
    DecodeArithmetic(w);
  }

  lemma MiscOneLine(w: Word)
    requires Opcode(w) == 0xf
    ensures '\n' !in Decode(w)
  {
    DigitsOneLine(w);
    MiscTexts(Nib(X(w)), Byte2(w));
    DecodeMisc(w);
  }

  // The formats of Decode have no line break outside their fields.

  lemma AddressTexts(a: string)
    requires '\n' !in a
    ensures '\n' !in "JP 0x" + a && '\n' !in "CALL 0x" + a
    ensures '\n' !in "LD I, 0x" + a && '\n' !in "LD V0, 0x" + a
  {
  }

  lemma RegisterByteTexts(x: string, b: string)
    requires '\n' !in x && '\n' !in b
    ensures '\n' !in "SE V" + x + ", 0x" + b && '\n' !in "SNE V" + x + ", 0x" + b
    ensures '\n' !in "LD V" + x + ", 0x" + b && '\n' !in "ADD V" + x + ", 0x" + b
    ensures '\n' !in "RND V" + x + ", 0x" + b
  {
  }

  lemma RegisterPairTexts(x: string, y: string)
    requires '\n' !in x && '\n' !in y
    ensures '\n' !in "SE V" + x + ", V" + y && '\n' !in "SNE V" + x + ", V" + y
  {
  }

  lemma DrawText(x: string, y: string, n: string)
    requires '\n' !in x && '\n' !in y && '\n' !in n
    ensures '\n' !in "DRW V" + x + ", V" + y + ", 0x" + ("0" + n)
  {
  }

  lemma KeysTexts(x: string, b: string)
    requires '\n' !in x && '\n' !in b
    ensures '\n' !in "SKP V" + x && '\n' !in "SKNP V" + x
    ensures '\n' !in "(invalid): opcode: e, x: " + x + ", 0x" + b
  {
  }

  lemma ArithmeticTexts(name: string, x: string, y: string, n: string)
    requires '\n' !in x && '\n' !in y && '\n' !in n
    requires name in {"LD", "OR", "AND", "XOR", "ADD", "SUB", "SHR", "SUBN", "SHL", ""}
    ensures '\n' !in name + " V" + x + ", V" + y
    ensures '\n' !in "(invalid): opcode: 8, x: " + x + ", v: " + y + ", sel: 0x" + n
  {
  }

  lemma MiscTexts(x: string, b: string)
    requires '\n' !in x && '\n' !in b
    ensures '\n' !in "LD V" + x + ", DT" && '\n' !in "LD V" + x + ", K"
    ensures '\n' !in "LD DT, V" + x && '\n' !in "LD ST, V" + x
    ensures '\n' !in "ADD I, V" + x && '\n' !in "LD F, V" + x
    ensures '\n' !in "LD B, V" + x && '\n' !in "LD [I], V" + x
    ensures '\n' !in "LD V" + x + ", [I]"
    ensures '\n' !in "(invalid): opcode: f, x: " + x + ", sel: 0x" + b
  {
    MiscToTexts(x);
    MiscFromTexts(x);
  }

  lemma MiscToTexts(x: string)
    requires '\n' !in x
    ensures '\n' !in "LD V" + x + ", DT" && '\n' !in "LD V" + x + ", K"
    ensures '\n' !in "LD V" + x + ", [I]"
  {
  }

  lemma MiscFromTexts(x: string)
    requires '\n' !in x
    ensures '\n' !in "LD DT, V" + x && '\n' !in "LD ST, V" + x
    ensures '\n' !in "ADD I, V" + x && '\n' !in "LD F, V" + x
    ensures '\n' !in "LD B, V" + x && '\n' !in "LD [I], V" + x
  {
  }
}
