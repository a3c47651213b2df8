/** The player's key bindings: the table inside a saved profile, how its offset is found,
    and how an action is turned into an input. */
module Bindings {
  import opened Options

  type Byte = c: char | c as int < 256
  type Text = seq<Byte>

  const VK_MENU := 0x12
  const MOUSE_BUTTON_BASE := 0x100
  const MIN_COUNT := 8
  const MAX_COUNT := 4096
  const MAX_COMMAND := 4096
  const MAX_NAME := 64

  const WORDS := 0x1_0000_0000

  type Word = n: nat | n < WORDS

  // ---- decoding an input object's name ------------------------------------------------

  function NamedInput(name: Text): nat {
    if name == "Key Space" then 0x20 else if name == "Key Return" then 0x0D
    else if name == "Key Escape" then 0x1B else if name == "Key Tab" then 0x09
    else if name == "Key Back" then 0x08 else if name == "Key Delete" then 0x2E
    else if name == "Key Insert" then 0x2D else if name == "Key Home" then 0x24
    else if name == "Key End" then 0x23 else if name == "Key Prior" then 0x21
    else if name == "Key Next" then 0x22 else if name == "Key Up" then 0x26
    else if name == "Key Down" then 0x28 else if name == "Key Left" then 0x25
    else if name == "Key Right" then 0x27 else if name == "Key Shift" then 0x10
    else if name == "Key Control" then 0x11 else if name == "Key Menu" then VK_MENU
    else if |name| == 13 && "Mouse Button" <= name && '1' <= name[12] <= '5'
      then MOUSE_BUTTON_BASE + (name[12] as int - '1' as int)
    else 0
  }

  predicate Digit(c: char) {
    '0' <= c <= '9'
  }

  // The C library's atoi: leading blanks, an optional sign, then digits.
  function Atoi(s: Text): int
    decreases |s|
  {
    if s == [] then 0
    else if s[0] == ' ' || '\t' <= s[0] <= '\r' then Atoi(s[1..])
    else if s[0] == '-' then 0 - Digits(s[1..], 0)
    else if s[0] == '+' then Digits(s[1..], 0)
    else Digits(s, 0)
  }

  function Digits(s: Text, acc: int): int
    decreases |s|
  {
    if s == [] || !Digit(s[0]) then acc else Digits(s[1..], 10 * acc + (s[0] as int - '0' as int))
  }

  function DecodeObject(name: Text): nat {
    if NamedInput(name) != 0 then NamedInput(name)
    else if |name| == 5 && "Key " <= name && ('A' <= name[4] <= 'Z' || Digit(name[4])) then name[4] as int
    else if |name| == 5 && "Key " <= name && 'a' <= name[4] <= 'z' then name[4] as int - 32
    else if |name| == 11 && "Key NumPad" <= name && Digit(name[10]) then 0x60 + (name[10] as int - '0' as int)
    else if "Key F" <= name && 1 <= Atoi(name[5..]) <= 24 then 0x70 + Atoi(name[5..]) - 1
    else 0
  }

  /** What decodes: joystick and gamepad objects never do, a mouse object only as one of
      the five buttons, and a key only to a virtual key below the mouse range. */
  lemma DecodeRange(name: Text)
    ensures "Joystick " <= name || "Gamepad " <= name ==> DecodeObject(name) == 0
    ensures "Mouse " <= name ==> (DecodeObject(name) != 0 <==> |name| == 13 && "Mouse Button" <= name && '1' <= name[12] <= '5')
    ensures "Mouse " <= name && DecodeObject(name) != 0 ==> MOUSE_BUTTON_BASE <= DecodeObject(name) < MOUSE_BUTTON_BASE + 5
    ensures "Key " <= name && DecodeObject(name) != 0 ==> 8 <= DecodeObject(name) < 0x88
  {
    if "Key " <= name || "Key F" <= name {
      assert name[0] == 'K';
    }
    if "Mouse " <= name {
      assert name[0] == 'M';
    }
  }

  // What a profile calls each key, function keys apart.
  function KeyName(vk: nat): Option<Text> {
    if vk == 0x20 then Some("Key Space") else if vk == 0x0D then Some("Key Return")
    else if vk == 0x1B then Some("Key Escape") else if vk == 0x09 then Some("Key Tab")
    else if vk == 0x08 then Some("Key Back") else if vk == 0x2E then Some("Key Delete")
    else if vk == 0x2D then Some("Key Insert") else if vk == 0x24 then Some("Key Home")
    else if vk == 0x23 then Some("Key End") else if vk == 0x21 then Some("Key Prior")
    else if vk == 0x22 then Some("Key Next") else if vk == 0x26 then Some("Key Up")
    else if vk == 0x28 then Some("Key Down") else if vk == 0x25 then Some("Key Left")
    else if vk == 0x27 then Some("Key Right") else if vk == 0x10 then Some("Key Shift")
    else if vk == 0x11 then Some("Key Control") else if vk == 0x12 then Some("Key Menu")
    else if 0x30 <= vk <= 0x39 || 0x41 <= vk <= 0x5A then Some("Key " + [vk as char])
    else if 0x60 <= vk <= 0x69 then Some("Key NumPad" + [(vk - 0x60 + 0x30) as char])
    else None
  }

  /** No two keys share an input: what decodes to a key is that key's one name, its letter in
      either case, or a function key's number. */
  lemma DecodeInverse(name: Text)
    ensures var vk := DecodeObject(name);
            0 < vk < MOUSE_BUTTON_BASE ==>
              || KeyName(vk) == Some(name)
              || (0x41 <= vk <= 0x5A && name == "Key " + [(vk + 32) as char])
              || (0x70 <= vk < 0x88 && "Key F" <= name && Atoi(name[5..]) == vk - 0x6F)
  {
    if NamedInput(name) == 0 {
      if |name| == 5 && "Key " <= name {
        assert name == "Key " + [name[4]];
      }
      if |name| == 11 && "Key NumPad" <= name {
        assert name == "Key NumPad" + [name[10]];
      }
    }
  }

  /** Each of those names decodes back to its input. */
  lemma DecodeOfName(vk: nat)
    requires KeyName(vk).Some?
    ensures DecodeObject(KeyName(vk).value) == vk
  {
    var name := KeyName(vk).value;
    if 0x30 <= vk <= 0x39 || 0x41 <= vk <= 0x5A {
      assert |name| == 5 && "Key " <= name && name[4] == vk as char;
      assert NamedInput(name) == 0;
    } else if 0x60 <= vk <= 0x69 {
      assert |name| == 11 && "Key NumPad" <= name && name[10] as int == vk - 0x30;
      assert NamedInput(name) == 0;
    } else {
      assert NamedInput(name) == vk;
    }
  }

  /** The mouse: each of the five buttons has its own input, in order, and no other object has it. */
  lemma MouseButtons(name: Text)
    ensures DecodeObject(name) == 0x100 <==> name == "Mouse Button1"
    ensures DecodeObject(name) == 0x101 <==> name == "Mouse Button2"
    ensures DecodeObject(name) == 0x102 <==> name == "Mouse Button3"
    ensures DecodeObject(name) == 0x103 <==> name == "Mouse Button4"
    ensures DecodeObject(name) == 0x104 <==> name == "Mouse Button5"
  {
    if |name| == 13 && "Mouse Button" <= name {
      assert name == "Mouse Button" + [name[12]];
    }
  }

  /** A letter decodes to its upper-case virtual key, in either case. */
  lemma LetterKeys(i: nat)
    requires i < 26
    ensures DecodeObject("Key " + [(0x41 + i) as char]) == 0x41 + i
    ensures DecodeObject("Key " + [(0x61 + i) as char]) == 0x41 + i
  {
    var upper: Text, lower: Text := "Key " + [(0x41 + i) as char], "Key " + [(0x61 + i) as char];
    assert upper[4] as int == 0x41 + i && lower[4] as int == 0x61 + i && "Key " <= upper && "Key " <= lower;
    assert |upper| == 5 && |lower| == 5 && NamedInput(upper) == 0 && NamedInput(lower) == 0;
  }

  // A number of one or two digits, as it is written.
  function Decimal(n: nat): (t: Text)
    requires n < 100
    ensures t != []
  {
    if n < 10 then [(0x30 + n) as char] else [(0x30 + n / 10) as char, (0x30 + n % 10) as char]
  }

  predicate IsBlank(c: char) {
    c == ' ' || c == '\t' || c == '\n' || c as int == 0x0B || c as int == 0x0C || c == '\r'
  }

  // The number, after blanks, at most a plus sign and leading zeros, and before anything that does
  // not begin with a digit.
  predicate SpelledBy(s: Text, n: nat, blanks: Text, sign: Text, zeros: Text, tail: Text)
    requires n < 100
  {
    && s == blanks + (sign + (zeros + (Decimal(n) + tail)))
    && (forall i :: 0 <= i < |blanks| ==> IsBlank(blanks[i]))
    && (sign == [] || sign == "+")
    && (forall i :: 0 <= i < |zeros| ==> zeros[i] == '0')
    && (tail == [] || !Digit(tail[0]))
  }

  ghost predicate Spells(s: Text, n: nat)
    requires n < 100
  {
    exists blanks, sign, zeros, tail :: SpelledBy(s, n, blanks, sign, zeros, tail)
  }

  lemma {:induction false} DigitsGrow(s: Text, acc: nat)
    ensures Digits(s, acc) >= acc
    ensures acc > 0 && s != [] && Digit(s[0]) ==> Digits(s, acc) >= 10 * acc
    decreases |s|
  {
    if s != [] && Digit(s[0]) {
      DigitsGrow(s[1..], 10 * acc + (s[0] as int - '0' as int));
    }
  }

  // Digits read after leading zeros.
  lemma {:induction false} ZerosSkipped(zeros: Text, rest: Text)
    requires forall i :: 0 <= i < |zeros| ==> zeros[i] == '0'
    ensures Digits(zeros + rest, 0) == Digits(rest, 0)
  {
    if zeros == [] {
      assert zeros + rest == rest;
    } else {
      assert (zeros + rest)[1..] == zeros[1..] + rest;
      ZerosSkipped(zeros[1..], rest);
    }
  }

  lemma DecimalRead(n: nat, tail: Text)
    requires 1 <= n < 100 && (tail == [] || !Digit(tail[0]))
    ensures Digits(Decimal(n) + tail, 0) == n
  {
    var s, d := Decimal(n) + tail, Decimal(n);
    if n < 10 {
      assert s[1..] == tail && s[0] as int == 0x30 + n;
    } else {
      var last := s[1..];
      assert last[1..] == tail && s[0] as int == 0x30 + n / 10 && last[0] as int == 0x30 + n % 10;
      assert Digits(s, 0) == Digits(last, n / 10) == Digits(tail, n) == n;
    }
  }

  lemma {:induction false} BlanksSkipped(blanks: Text, rest: Text)
    requires forall i :: 0 <= i < |blanks| ==> IsBlank(blanks[i])
    ensures Atoi(blanks + rest) == Atoi(rest)
  {
    if blanks == [] {
      assert blanks + rest == rest;
    } else {
      assert (blanks + rest)[1..] == blanks[1..] + rest;
      BlanksSkipped(blanks[1..], rest);
    }
  }

  lemma SignSkipped(sign: Text, rest: Text)
    requires (sign == [] || sign == "+") && rest != [] && Digit(rest[0])
    ensures Atoi(sign + rest) == Digits(rest, 0)
  {
    if sign == [] {
      assert sign + rest == rest;
    } else {
      assert (sign + rest)[1..] == rest;
    }
  }

  lemma AtoiOfSpelling(s: Text, n: nat, blanks: Text, sign: Text, zeros: Text, tail: Text)
    requires 1 <= n < 100 && SpelledBy(s, n, blanks, sign, zeros, tail)
    ensures Atoi(s) == n
  {
    BlanksSkipped(blanks, sign + (zeros + (Decimal(n) + tail)));
    SignSkipped(sign, zeros + (Decimal(n) + tail));
    ZerosSkipped(zeros, Decimal(n) + tail);
    DecimalRead(n, tail);
  }

  // What stands where a small number is read.
  lemma {:induction false} DigitsSpelled(s: Text, n: nat) returns (zeros: Text, tail: Text)
    requires 1 <= n < 100 && Digits(s, 0) == n
    ensures s == zeros + (Decimal(n) + tail) && (forall i :: 0 <= i < |zeros| ==> zeros[i] == '0')
    ensures tail == [] || !Digit(tail[0])
    decreases |s|
  {
    var d := s[0] as int - '0' as int;
    if d == 0 {
      zeros, tail := DigitsSpelled(s[1..], n);
      assert s == [s[0]] + s[1..];
      assert ['0'] + (zeros + (Decimal(n) + tail)) == ['0'] + zeros + (Decimal(n) + tail);
      zeros := ['0'] + zeros;
    } else {
      zeros, tail := [], s[1..];
      if tail != [] && Digit(tail[0]) {
        var e := tail[0] as int - '0' as int;
        tail := tail[1..];
        DigitsGrow(tail, 10 * d + e);
        assert !(tail != [] && Digit(tail[0]));
        assert Decimal(n) == [s[0], s[1]] && s == [s[0], s[1]] + tail;
      } else {
        assert Decimal(n) == [s[0]] && s == [s[0]] + tail;
      }
      assert [] + (Decimal(n) + tail) == Decimal(n) + tail;
    }
  }

  lemma {:induction false} AtoiSpelled(s: Text, n: nat)
    requires 1 <= n < 100 && Atoi(s) == n
    ensures Spells(s, n)
    decreases |s|
  {
    if IsBlank(s[0]) {
      AtoiSpelled(s[1..], n);
      var blanks, sign, zeros, tail :| SpelledBy(s[1..], n, blanks, sign, zeros, tail);
      var rest := sign + (zeros + (Decimal(n) + tail));
      assert s == [s[0]] + s[1..] && [s[0]] + (blanks + rest) == [s[0]] + blanks + rest;
      assert SpelledBy(s, n, [s[0]] + blanks, sign, zeros, tail);
    } else if s[0] == '-' {
      DigitsGrow(s[1..], 0);
    } else if s[0] == '+' {
      var zeros, tail := DigitsSpelled(s[1..], n);
      assert s == "+" + s[1..] && [] + s == s;
      assert SpelledBy(s, n, [], "+", zeros, tail);
    } else {
      var zeros, tail := DigitsSpelled(s, n);
      assert [] + ([] + s) == s;
      assert SpelledBy(s, n, [], [], zeros, tail);
    }
  }

  /** The function keys: exactly "Key F" and the number, which may have blanks, a plus sign and
      zeros before it and anything but a digit after it. */
  lemma FunctionKeys(name: Text, n: nat)
    requires 1 <= n <= 24
    ensures DecodeObject(name) == 0x70 + n - 1 <==> "Key F" <= name && Spells(name[5..], n)
    ensures DecodeObject("Key F" + Decimal(n)) == 0x70 + n - 1
  {
    FunctionKeyRead(name, n);
    if "Key F" <= name && Spells(name[5..], n) {
      var blanks, sign, zeros, tail :| SpelledBy(name[5..], n, blanks, sign, zeros, tail);
      AtoiOfSpelling(name[5..], n, blanks, sign, zeros, tail);
    }
    if "Key F" <= name && Atoi(name[5..]) == n {
      AtoiSpelled(name[5..], n);
    }
    var plain: Text := "Key F" + Decimal(n);
    FunctionKeyRead(plain, n);
    assert plain[5..] == Decimal(n) && [] + ([] + ([] + (Decimal(n) + []))) == Decimal(n);
    AtoiOfSpelling(plain[5..], n, [], [], [], []);
  }

  lemma FunctionKeyRead(name: Text, n: nat)
    requires 1 <= n <= 24
    ensures DecodeObject(name) == 0x70 + n - 1 <==> "Key F" <= name && Atoi(name[5..]) == n
  {
    if "Key F" <= name && Atoi(name[5..]) == n {
      assert |name| > 5;
      assert name[4] == 'F';
      assert NamedInput(name) == 0;
    }
  }

  // A binding. The input it stands for is stored beside it in the program, and is always
  // what the name decodes to.
  datatype Binding = Binding(command: Word, name: Text) {
    function Input(): nat {
      DecodeObject(name)
    }
  }

  // ---- the binary format ----------------------------------------------------------------

  function ReadWord(d: Text, at: nat): (n: Word)
    requires at + 4 <= |d|
  {
    d[at] as int + 0x100 * (d[at + 1] as int) + 0x10000 * (d[at + 2] as int) + 0x1000000 * (d[at + 3] as int)
  }

  function WriteWord(n: Word): (w: Text)
    ensures |w| == 4
  {
    [(n % 0x100) as char, (n / 0x100 % 0x100) as char, (n / 0x10000 % 0x100) as char, (n / 0x1000000) as char]
  }

  // The words an object's name can begin with, spelled out at a position of a text.
  predicate KeyAt(t: Text, i: nat) {
    i + 4 <= |t| && t[i] == 'K' && t[i + 1] == 'e' && t[i + 2] == 'y' && t[i + 3] == ' '
  }

  predicate MouseAt(t: Text, i: nat) {
    && i + 6 <= |t| && t[i] == 'M' && t[i + 1] == 'o' && t[i + 2] == 'u' && t[i + 3] == 's'
    && t[i + 4] == 'e' && t[i + 5] == ' '
  }

  predicate JoystickAt(t: Text, i: nat) {
    && i + 9 <= |t| && t[i] == 'J' && t[i + 1] == 'o' && t[i + 2] == 'y' && t[i + 3] == 's'
    && t[i + 4] == 't' && t[i + 5] == 'i' && t[i + 6] == 'c' && t[i + 7] == 'k' && t[i + 8] == ' '
  }

  predicate GamepadAt(t: Text, i: nat) {
    && i + 8 <= |t| && t[i] == 'G' && t[i + 1] == 'a' && t[i + 2] == 'm' && t[i + 3] == 'e'
    && t[i + 4] == 'p' && t[i + 5] == 'a' && t[i + 6] == 'd' && t[i + 7] == ' '
  }

  lemma WordsSpelled(t: Text, i: nat)
    ensures KeyAt(t, i) <==> i + 4 <= |t| && t[i..i + 4] == "Key "
    ensures MouseAt(t, i) <==> i + 6 <= |t| && t[i..i + 6] == "Mouse "
    ensures JoystickAt(t, i) <==> i + 9 <= |t| && t[i..i + 9] == "Joystick "
    ensures GamepadAt(t, i) <==> i + 8 <= |t| && t[i..i + 8] == "Gamepad "
  {
    KeySpelled(t, i);
    MouseSpelled(t, i);
    JoystickSpelled(t, i);
    GamepadSpelled(t, i);
  }

  lemma KeySpelled(t: Text, i: nat)
    ensures KeyAt(t, i) <==> i + 4 <= |t| && t[i..i + 4] == "Key "
  {
    if i + 4 <= |t| {
      assert t[i..i + 4] == [t[i], t[i + 1], t[i + 2], t[i + 3]];
    }
  }

  lemma MouseSpelled(t: Text, i: nat)
    ensures MouseAt(t, i) <==> i + 6 <= |t| && t[i..i + 6] == "Mouse "
  {
    if i + 6 <= |t| {
      assert t[i..i + 6] == [t[i], t[i + 1], t[i + 2], t[i + 3], t[i + 4], t[i + 5]];
    }
  }

  lemma JoystickSpelled(t: Text, i: nat)
    ensures JoystickAt(t, i) <==> i + 9 <= |t| && t[i..i + 9] == "Joystick "
  {
    if i + 9 <= |t| {
      assert t[i..i + 9] == [t[i], t[i + 1], t[i + 2], t[i + 3], t[i + 4], t[i + 5], t[i + 6], t[i + 7], t[i + 8]];
    }
  }

  lemma GamepadSpelled(t: Text, i: nat)
    ensures GamepadAt(t, i) <==> i + 8 <= |t| && t[i..i + 8] == "Gamepad "
  {
    if i + 8 <= |t| {
      assert t[i..i + 8] == [t[i], t[i + 1], t[i + 2], t[i + 3], t[i + 4], t[i + 5], t[i + 6], t[i + 7]];
    }
  }

  predicate KnownKind(name: Text) {
    KeyAt(name, 0) || MouseAt(name, 0) || JoystickAt(name, 0) || GamepadAt(name, 0)
  }

  // A record the parser takes for part of the table.
  predicate Plausible(name: Text, command: Word) {
    name != [] && |name| <= MAX_NAME && command <= MAX_COMMAND && KnownKind(name)
  }

  predicate ValidBinding(b: Binding) {
    Plausible(b.name, b.command) && '\0' !in b.name
  }

  predicate AllValid(bs: seq<Binding>) {
    bs == [] || (ValidBinding(bs[0]) && AllValid(bs[1..]))
  }

  /** Which records the parser takes for part of a table. */
  lemma ValidExactly(b: Binding)
    ensures ValidBinding(b) <==>
              && 1 <= |b.name| <= 64 && b.command <= 4096 && '\0' !in b.name
              && ("Key " <= b.name || "Mouse " <= b.name || "Joystick " <= b.name || "Gamepad " <= b.name)
  {
    WordsSpelled(b.name, 0);
  }

  function EncodeRecord(b: Binding): Text {
    b.name + (['\0'] + WriteWord(b.command))
  }

  function EncodeRecords(bs: seq<Binding>): Text {
    if bs == [] then [] else EncodeRecord(bs[0]) + EncodeRecords(bs[1..])
  }

  /** The serialised table: a record count, then the records. */
  function EncodeTable(bs: seq<Binding>): Text
    requires |bs| <= MAX_COUNT
  {
    WriteWord(|bs|) + EncodeRecords(bs)
  }

  // The first NUL at or after off, or the end.
  function NulFrom(d: Text, off: nat): (at: nat)
    requires off <= |d|
    ensures off <= at <= |d| && (at < |d| ==> d[at] == '\0')
    decreases |d| - off
  {
    if off == |d| || d[off] == '\0' then off else NulFrom(d, off + 1)
  }

  // The record at off, and the offset after it.
  function RecordFrom(d: Text, off: nat): (r: Option<(Binding, nat)>)
    requires off <= |d|
    ensures r.Some? ==> r.value.1 <= |d|
  {
    var nul := NulFrom(d, off);
    if nul + 5 > |d| then None
    else
      var name, command := d[off..nul], ReadWord(d, nul + 1);
      if !Plausible(name, command) then None else Some((Binding(command, name), nul + 5))
  }

  // Parses count records from off: the bindings and the offset after them.
  function ParseRecords(d: Text, off: nat, count: nat): (r: Option<(seq<Binding>, nat)>)
    requires off <= |d|
    decreases count
  {
    if count == 0 then Some(([], off))
    else
      var rec := RecordFrom(d, off);
      if rec.None? then None else Append([rec.value.0], ParseRecords(d, rec.value.1, count - 1))
  }

  function Append(front: seq<Binding>, rest: Option<(seq<Binding>, nat)>): Option<(seq<Binding>, nat)> {
    if rest.None? then None else Some((front + rest.value.0, rest.value.1))
  }

  lemma AppendTwice(front: seq<Binding>, b: Binding, rest: Option<(seq<Binding>, nat)>)
    ensures Append(front, Append([b], rest)) == Append(front + [b], rest)
  {
    if rest.Some? {
      assert front + ([b] + rest.value.0) == front + [b] + rest.value.0;
    }
  }

  function Parse(d: Text, nameAt: nat): Option<seq<Binding>>
    requires nameAt <= |d|
  {
    if nameAt < 4 then None
    else
      var count := ReadWord(d, nameAt - 4);
      if count < MIN_COUNT || count > MAX_COUNT then None
      else
        var r := ParseRecords(d, nameAt, count);
        if r.None? then None else Some(r.value.0)
  }

  // One record: scan to the terminator, read the command, refuse anything implausible.
  method ReadRecord(d: Text, start: nat) returns (r: Option<(Binding, nat)>)
    requires start <= |d|
    ensures r == RecordFrom(d, start)
  {
    var off := start;
    while off < |d| && d[off] != '\0'
      invariant start <= off <= |d|
      invariant NulFrom(d, off) == NulFrom(d, start)
    {
      off := off + 1;
    }
    if off >= |d| || off + 5 > |d| {
      return None;
    }
    var name := d[start..off];
    off := off + 1;
    var command := ReadWord(d, off);
    off := off + 4;
    if name == [] || |name| > MAX_NAME || command > MAX_COMMAND {
      return None;
    }
    if !KeyAt(name, 0) && !MouseAt(name, 0) && !JoystickAt(name, 0) && !GamepadAt(name, 0) {
      return None;
    }
    r := Some((Binding(command, name), off));
  }

  // Reads count records in a row, or none of them.
  method ReadRecords(d: Text, start: nat, count: nat) returns (r: Option<seq<Binding>>)
    requires start <= |d|
    ensures var whole := ParseRecords(d, start, count); r == if whole.None? then None else Some(whole.value.0)
  {
    var off: nat, got: seq<Binding> := start, [];
    ghost var whole := ParseRecords(d, start, count);
    assert whole.Some? ==> got + whole.value.0 == whole.value.0;
    for i := 0 to count
      invariant off <= |d|
      invariant whole == Append(got, ParseRecords(d, off, count - i))
    {
      var rec := ReadRecord(d, off);
      if rec.None? {
        return None;
      }
      AppendTwice(got, rec.value.0, ParseRecords(d, rec.value.1, count - i - 1));
      got := got + [rec.value.0];
      off := rec.value.1;
    }
    assert got + [] == got;
    r := Some(got);
  }

  /** The parser: every index it reads lies inside the file, whatever the file holds. */
  method ParseTable(d: Text, nameAt: nat) returns (r: Option<seq<Binding>>)
    requires nameAt <= |d|
    ensures r == Parse(d, nameAt)
  {
    if nameAt < 4 {
      return None;
    }
    var count := ReadWord(d, nameAt - 4);
    if count < MIN_COUNT || count > MAX_COUNT {
      return None;
    }
    r := ReadRecords(d, nameAt, count);
  }

  // ---- parsing and serialising are inverses ------------------------------------------------

  // The text e stands at offset off of d.
  ghost predicate Stands(d: Text, off: nat, e: Text) {
    off + |e| <= |d| && d[off..off + |e|] == e
  }

  lemma StandsSplit(d: Text, off: nat, a: Text, b: Text)
    ensures Stands(d, off, a + b) <==> Stands(d, off, a) && Stands(d, off + |a|, b)
  {
    if off + |a| + |b| <= |d| {
      var s := d[off..off + |a + b|];
      assert d[off..off + |a|] == s[..|a|] && d[off + |a|..off + |a| + |b|] == s[|a|..];
      assert s == s[..|a|] + s[|a|..];
      assert (a + b)[..|a|] == a && (a + b)[|a|..] == b;
    }
  }

  lemma FourDigits(a: Byte, b: Byte, c: Byte, e: Byte, n: Word)
    ensures a as int + 0x100 * (b as int) + 0x10000 * (c as int) + 0x1000000 * (e as int) == n <==> [a, b, c, e] == WriteWord(n)
  {
    DigitsOf(a as int, b as int, c as int, e as int, n);
    var w := WriteWord(n);
    assert w[0] as int == n % 0x100 && w[1] as int == n / 0x100 % 0x100;
    assert w[2] as int == n / 0x10000 % 0x100 && w[3] as int == n / 0x1000000;
    assert [a, b, c, e] == w <==> a == w[0] && b == w[1] && c == w[2] && e == w[3];
  }

  lemma DigitsOf(a: nat, b: nat, c: nat, e: nat, n: Word)
    requires a < 0x100 && b < 0x100 && c < 0x100 && e < 0x100
    ensures a + 0x100 * b + 0x10000 * c + 0x1000000 * e == n <==>
            a == n % 0x100 && b == n / 0x100 % 0x100 && c == n / 0x10000 % 0x100 && e == n / 0x1000000
  {
    var x := n / 0x100;
    LowDigit(a, b + 0x100 * c + 0x10000 * e, n);
    LowDigit(b, c + 0x100 * e, x);
    LowDigit(c, e, x / 0x100);
    assert x / 0x100 == n / 0x10000 && x / 0x100 / 0x100 == n / 0x1000000;
  }

  lemma LowDigit(a: nat, rest: nat, n: nat)
    requires a < 0x100
    ensures a + 0x100 * rest == n <==> a == n % 0x100 && rest == n / 0x100
  {
  }

  lemma WordExact(d: Text, at: nat, n: Word)
    requires at + 4 <= |d|
    ensures Stands(d, at, WriteWord(n)) <==> ReadWord(d, at) == n
  {
    FourDigits(d[at], d[at + 1], d[at + 2], d[at + 3], n);
    assert d[at..at + 4] == [d[at], d[at + 1], d[at + 2], d[at + 3]];
  }

  lemma {:induction false} NoNulBefore(d: Text, off: nat)
    requires off <= |d|
    ensures '\0' !in d[off..NulFrom(d, off)]
    decreases |d| - off
  {
    if off < |d| && d[off] != '\0' {
      NoNulBefore(d, off + 1);
      var at := NulFrom(d, off);
      assert d[off..at] == [d[off]] + d[off + 1..at];
    }
  }

  lemma {:induction false} NulAt(d: Text, off: nat, at: nat)
    requires off <= at < |d| && d[at] == '\0' && forall i :: off <= i < at ==> d[i] != '\0'
    ensures NulFrom(d, off) == at
    decreases at - off
  {
    if off < at {
      NulAt(d, off + 1, at);
    }
  }

  lemma RecordStands(d: Text, off: nat, b: Binding)
    requires off + |b.name| + 5 <= |d|
    ensures var nul := off + |b.name|;
            Stands(d, off, EncodeRecord(b)) <==> d[off..nul] == b.name && d[nul] == '\0' && ReadWord(d, nul + 1) == b.command
  {
    var nul := off + |b.name|;
    StandsSplit(d, off, b.name, ['\0'] + WriteWord(b.command));
    StandsSplit(d, nul, ['\0'], WriteWord(b.command));
    WordExact(d, nul + 1, b.command);
    assert d[nul..nul + 1] == [d[nul]];
  }

  // A record that is read is the serialisation standing there.
  lemma RecordSound(d: Text, off: nat)
    requires off <= |d| && RecordFrom(d, off).Some?
    ensures var (b, end) := RecordFrom(d, off).value;
            ValidBinding(b) && Stands(d, off, EncodeRecord(b)) && end == off + |EncodeRecord(b)|
  {
    NoNulBefore(d, off);
    RecordStands(d, off, RecordFrom(d, off).value.0);
  }

  // A record's serialisation is read back.
  lemma RecordComplete(d: Text, off: nat, b: Binding)
    requires ValidBinding(b) && Stands(d, off, EncodeRecord(b))
    ensures RecordFrom(d, off) == Some((b, off + |EncodeRecord(b)|))
  {
    var nul := off + |b.name|;
    RecordStands(d, off, b);
    forall i | off <= i < nul
      ensures d[i] != '\0'
    {
      assert d[i] == d[off..nul][i - off];
    }
    NulAt(d, off, nul);
  }

  /** On any file, the bytes the parser accepts are exactly the serialisation of what it
      returns, and lie inside the file. */
  lemma {:induction false} EncodeOfParse(d: Text, off: nat, count: nat)
    requires off <= |d| && ParseRecords(d, off, count).Some?
    ensures var (bs, end) := ParseRecords(d, off, count).value;
            && |bs| == count && AllValid(bs)
            && Stands(d, off, EncodeRecords(bs)) && end == off + |EncodeRecords(bs)|
    decreases count
  {
    if count > 0 {
      RecordSound(d, off);
      var (b, next) := RecordFrom(d, off).value;
      EncodeOfParse(d, next, count - 1);
      var (tail, end) := ParseRecords(d, next, count - 1).value;
      assert ([b] + tail)[1..] == tail;
      StandsSplit(d, off, EncodeRecord(b), EncodeRecords(tail));
    }
  }

  lemma ParseUnfolds(d: Text, off: nat, count: nat, b: Binding, next: nat)
    requires off <= |d| && count > 0 && next <= |d| && RecordFrom(d, off) == Some((b, next))
    ensures ParseRecords(d, off, count) == Append([b], ParseRecords(d, next, count - 1))
  {
  }

  lemma ParseStep(d: Text, off: nat, b: Binding, next: nat, tail: seq<Binding>)
    requires off <= |d| && RecordFrom(d, off) == Some((b, next)) && next <= |d|
    requires var r := ParseRecords(d, next, |tail|); r.Some? && r.value.0 == tail
    ensures var r := ParseRecords(d, off, |tail| + 1); r.Some? && r.value.0 == [b] + tail
  {
    ParseUnfolds(d, off, |tail| + 1, b, next);
  }

  lemma FrontSplits(d: Text, off: nat, bs: seq<Binding>)
    requires bs != [] && Stands(d, off, EncodeRecords(bs))
    ensures Stands(d, off, EncodeRecord(bs[0])) && Stands(d, off + |EncodeRecord(bs[0])|, EncodeRecords(bs[1..]))
  {
    var a, b := EncodeRecord(bs[0]), EncodeRecords(bs[1..]);
    assert EncodeRecords(bs) == a + b;
    StandsSplit(d, off, a, b);
  }

  lemma ValidFront(bs: seq<Binding>)
    requires bs != [] && AllValid(bs)
    ensures ValidBinding(bs[0]) && AllValid(bs[1..])
  {
  }

  lemma FrontReads(d: Text, off: nat, bs: seq<Binding>)
    requires bs != [] && ValidBinding(bs[0]) && Stands(d, off, EncodeRecord(bs[0]))
    ensures RecordFrom(d, off) == Some((bs[0], off + |EncodeRecord(bs[0])|))
  {
    RecordComplete(d, off, bs[0]);
  }

  /** Parsing what was serialised, wherever it stands in the file, gives the bindings back. */
  lemma {:induction false} ParseOfEncode(d: Text, off: nat, bs: seq<Binding>)
    requires Stands(d, off, EncodeRecords(bs)) && AllValid(bs)
    ensures var r := ParseRecords(d, off, |bs|); r.Some? && r.value.0 == bs
    decreases |bs|
  {
    if bs != [] {
      FrontSplits(d, off, bs);
      ValidFront(bs);
      FrontReads(d, off, bs);
      var next := off + |EncodeRecord(bs[0])|;
      ParseOfEncode(d, next, bs[1..]);
      ParseStep(d, off, bs[0], next, bs[1..]);
      assert bs == [bs[0]] + bs[1..];
    }
  }

  // A table of these bindings stands in the file with its first name at nameAt.
  ghost predicate TableAt(d: Text, nameAt: nat, bs: seq<Binding>) {
    && 8 <= |bs| <= 4096 && AllValid(bs)
    && 4 <= nameAt && Stands(d, nameAt - 4, EncodeTable(bs))
  }

  lemma TableParts(d: Text, nameAt: nat, bs: seq<Binding>)
    requires 4 <= nameAt <= |d| && |bs| <= MAX_COUNT
    ensures Stands(d, nameAt - 4, EncodeTable(bs)) <==> ReadWord(d, nameAt - 4) == |bs| && Stands(d, nameAt, EncodeRecords(bs))
  {
    WordThen(d, nameAt - 4, |bs|, EncodeRecords(bs));
  }

  lemma WordThen(d: Text, at: nat, n: Word, e: Text)
    requires at + 4 <= |d|
    ensures Stands(d, at, WriteWord(n) + e) <==> ReadWord(d, at) == n && Stands(d, at + 4, e)
  {
    WordExact(d, at, n);
    StandsSplit(d, at, WriteWord(n), e);
  }

  lemma TableParses(d: Text, nameAt: nat, bs: seq<Binding>)
    requires TableAt(d, nameAt, bs)
    ensures nameAt <= |d| && Parse(d, nameAt) == Some(bs)
  {
    TableParts(d, nameAt, bs);
    ParseOfEncode(d, nameAt, bs);
  }

  lemma ParsedIsTable(d: Text, nameAt: nat)
    requires nameAt <= |d| && Parse(d, nameAt).Some?
    ensures TableAt(d, nameAt, Parse(d, nameAt).value)
  {
    var count := ReadWord(d, nameAt - 4);
    EncodeOfParse(d, nameAt, count);
    TableParts(d, nameAt, ParseRecords(d, nameAt, count).value.0);
  }

  /** Parsing and serialising are inverses: the parser accepts at an offset and returns bs
      exactly when the serialisation of bs stands there, byte for byte. */
  lemma ParseExact(d: Text, nameAt: nat, bs: seq<Binding>)
    requires nameAt <= |d|
    ensures Parse(d, nameAt) == Some(bs) <==> TableAt(d, nameAt, bs)
  {
    if TableAt(d, nameAt, bs) {
      TableParses(d, nameAt, bs);
    }
    if Parse(d, nameAt) == Some(bs) {
      ParsedIsTable(d, nameAt);
    }
  }

  // ---- finding the table ----------------------------------------------------------------------

  // An offset the scan tries: it looks like a key or mouse object's name.
  predicate Candidate(d: Text, i: nat) {
    4 <= i && i + 8 < |d| && (KeyAt(d, i) || MouseAt(d, i))
  }

  predicate Accepted(d: Text, i: nat) {
    i <= |d| && Candidate(d, i) && Parse(d, i).Some?
  }

  // The scan's answer, as the offset it stops at.
  ghost predicate ScanStopsAt(d: Text, at: nat) {
    Accepted(d, at) && forall j :: 0 <= j < at ==> !Accepted(d, j)
  }

  // The bindings at the first accepted offset, or none if there is no such offset.
  ghost predicate ScanAnswers(d: Text, r: Option<seq<Binding>>) {
    if r.Some? then exists at: nat :: ScanStopsAt(d, at) && r == Parse(d, at)
    else forall j :: 0 <= j <= |d| ==> !Accepted(d, j)
  }

  /** The scan over the profile: the first candidate offset that parses completely. */
  method FindTable(d: Text) returns (r: Option<seq<Binding>>)
    ensures ScanAnswers(d, r)
  {
    var i := 4;
    while i + 8 < |d|
      invariant 4 <= i
      invariant forall j :: 0 <= j < i && j + 8 < |d| ==> !Accepted(d, j)
    {
      var key := KeyAt(d, i);
      var mouse := i + 6 < |d| && MouseAt(d, i);
      if !key && !mouse {
        i := i + 1;
        continue;
      }
      r := ParseTable(d, i);
      if r.Some? {
        assert ScanStopsAt(d, i);
        return;
      }
      i := i + 1;
    }
    r := None;
  }

  lemma {:induction false} EncodedSize(bs: seq<Binding>)
    requires AllValid(bs)
    ensures |EncodeRecords(bs)| >= 6 * |bs|
  {
    if bs != [] {
      EncodedSize(bs[1..]);
    }
  }

  // A name's leading word stands where the name does.
  lemma KindStands(d: Text, at: nat, name: Text)
    requires Stands(d, at, name) && KnownKind(name)
    ensures KeyAt(d, at) <==> KeyAt(name, 0)
    ensures MouseAt(d, at) <==> MouseAt(name, 0)
  {
    forall k | 0 <= k < |name|
      ensures d[at + k] == name[k]
    {
      assert d[at + k] == d[at..at + |name|][k];
    }
    assert d[at + 0] == name[0] && d[at + 1] == name[1] && d[at + 2] == name[2] && d[at + 3] == name[3];
    if |name| >= 6 {
      assert d[at + 4] == name[4] && d[at + 5] == name[5];
    }
  }

  // The scan tries offsets that begin with such a name.
  predicate Tried(name: Text) {
    KeyAt(name, 0) || MouseAt(name, 0)
  }

  // No candidate offset lies before this one.
  ghost predicate NoCandidateBefore(d: Text, at: nat) {
    forall j :: 0 <= j < at ==> !Candidate(d, j)
  }

  /** A table in the file is accepted where it stands exactly when its first record names a
      key or mouse object; a table that begins with a joystick or gamepad record is valid to
      the parser but never tried. With no candidate bytes before it, it is then the one found. */
  lemma TableFoundExactly(d: Text, at: nat, bs: seq<Binding>)
    requires TableAt(d, at, bs)
    ensures Accepted(d, at) <==> Tried(bs[0].name)
    ensures NoCandidateBefore(d, at) ==> (ScanStopsAt(d, at) <==> Tried(bs[0].name))
  {
    var name := bs[0].name;
    StandsSplit(d, at - 4, WriteWord(|bs|), EncodeRecords(bs));
    StandsSplit(d, at, EncodeRecord(bs[0]), EncodeRecords(bs[1..]));
    StandsSplit(d, at, name, ['\0'] + WriteWord(bs[0].command));
    ParseExact(d, at, bs);
    EncodedSize(bs);
    KindStands(d, at, name);
  }

  lemma {:induction false} EncodeSplit(bs: seq<Binding>, cs: seq<Binding>)
    ensures EncodeRecords(bs + cs) == EncodeRecords(bs) + EncodeRecords(cs)
    decreases |bs|
  {
    if bs != [] {
      EncodeSplit(bs[1..], cs);
      assert (bs + cs)[0] == bs[0] && (bs + cs)[1..] == bs[1..] + cs;
    } else {
      assert bs + cs == cs;
    }
  }

  lemma {:induction false} ValidPart(bs: seq<Binding>, cs: seq<Binding>)
    ensures AllValid(bs + cs) <==> AllValid(bs) && AllValid(cs)
    decreases |bs|
  {
    if bs != [] {
      ValidPart(bs[1..], cs);
      assert (bs + cs)[0] == bs[0] && (bs + cs)[1..] == bs[1..] + cs;
    } else {
      assert bs + cs == cs;
    }
  }

  lemma EncodeOne(b: Binding)
    ensures EncodeRecords([b]) == EncodeRecord(b)
  {
    assert [b][1..] == [];
  }

  // In an encoding, the bytes of a record's command followed by the next records.
  lemma InnerEncoding(front: seq<Binding>, last: Binding, inner: seq<Binding>, rest: seq<Binding>) returns (e: Text)
    requires last.command == |inner| <= MAX_COUNT
    ensures EncodeRecords(front + [last] + inner + rest) == e + (EncodeTable(inner) + EncodeRecords(rest))
    ensures |EncodeRecords(front + [last])| == |e| + 4
  {
    EncodeSplit(front + [last] + inner, rest);
    EncodeSplit(front + [last], inner);
    EncodeSplit(front, [last]);
    EncodeOne(last);
    var w := WriteWord(last.command);
    e := EncodeRecords(front) + (last.name + ['\0']);
    Regroup(EncodeRecords(front), last.name, ['\0'], w, EncodeRecords(inner), EncodeRecords(rest));
  }

  lemma Regroup(x: Text, n: Text, z: Text, w: Text, i: Text, r: Text)
    ensures x + (n + (z + w)) + i + r == x + (n + z) + ((w + i) + r)
  {
    assert x + (n + (z + w)) == x + (n + z) + w;
  }

  /** Why the scan must start at the lowest offset: inside a table the command of one
      record stands where the next record's count would. So after a record whose command m
      is in range, the next m records parse as a table of their own. */
  lemma InnerTableParses(d: Text, at: nat, front: seq<Binding>, last: Binding, inner: seq<Binding>, rest: seq<Binding>)
    requires TableAt(d, at, front + [last] + inner + rest)
    requires last.command == |inner| >= MIN_COUNT
    ensures TableAt(d, at + |EncodeRecords(front + [last])|, inner)
  {
    var bs := front + [last] + inner + rest;
    var e := InnerEncoding(front, last, inner, rest);
    TablePartsOf(d, at, bs);
    StandsSplit(d, at, e, EncodeTable(inner) + EncodeRecords(rest));
    StandsSplit(d, at + |e|, EncodeTable(inner), EncodeRecords(rest));
    ValidPart(front + [last] + inner, rest);
    ValidPart(front + [last], inner);
  }

  lemma TablePartsOf(d: Text, at: nat, bs: seq<Binding>)
    requires TableAt(d, at, bs)
    ensures Stands(d, at, EncodeRecords(bs)) && AllValid(bs)
  {
    TableParts(d, at, bs);
  }

  // ---- a file that is exactly one table -----------------------------------------------------------

  // The file is the serialisation of these bindings, and nothing else.
  ghost predicate WholeFile(d: Text, bs: seq<Binding>) {
    8 <= |bs| <= 4096 && AllValid(bs) && d == EncodeTable(bs)
  }

  // Where record k begins.
  function Offset(bs: seq<Binding>, k: nat): (off: nat)
    requires k <= |bs|
    ensures off >= 4
  {
    4 + |EncodeRecords(bs[..k])|
  }

  // The word before record k, which the parser takes for a count.
  function CountBefore(bs: seq<Binding>, k: nat): nat
    requires k < |bs|
  {
    if k == 0 then |bs| else bs[k - 1].command
  }

  // Records k and on hold a table, which the scan tries.
  predicate InnerTable(bs: seq<Binding>, k: nat)
    requires k < |bs|
  {
    Tried(bs[k].name) && MIN_COUNT <= CountBefore(bs, k) <= |bs| - k
  }

  lemma SplitAt(bs: seq<Binding>, k: nat)
    requires k <= |bs|
    ensures EncodeRecords(bs) == EncodeRecords(bs[..k]) + EncodeRecords(bs[k..])
    ensures AllValid(bs) ==> AllValid(bs[..k]) && AllValid(bs[k..])
  {
    assert bs == bs[..k] + bs[k..];
    EncodeSplit(bs[..k], bs[k..]);
    ValidPart(bs[..k], bs[k..]);
  }

  lemma OffsetZero(bs: seq<Binding>)
    ensures Offset(bs, 0) == 4
  {
    assert bs[..0] == [];
  }

  lemma OffsetNext(bs: seq<Binding>, k: nat)
    requires k < |bs|
    ensures Offset(bs, k + 1) == Offset(bs, k) + |bs[k].name| + 5
  {
    EncodeSplit(bs[..k], [bs[k]]);
    EncodeOne(bs[k]);
    assert bs[..k + 1] == bs[..k] + [bs[k]];
  }

  lemma {:induction false} OffsetsGrow(bs: seq<Binding>, j: nat, k: nat)
    requires j < k <= |bs|
    ensures Offset(bs, j) < Offset(bs, k)
    decreases k
  {
    OffsetNext(bs, k - 1);
    if j < k - 1 {
      OffsetsGrow(bs, j, k - 1);
    }
  }

  // From record k on, the file holds the records from k on.
  lemma TailStands(d: Text, bs: seq<Binding>, k: nat)
    requires WholeFile(d, bs) && k <= |bs|
    ensures Stands(d, Offset(bs, k), EncodeRecords(bs[k..])) && Offset(bs, k) + |EncodeRecords(bs[k..])| == |d|
    ensures AllValid(bs[k..])
  {
    SplitAt(bs, k);
    var e := WriteWord(|bs|) + EncodeRecords(bs[..k]);
    assert d == e + EncodeRecords(bs[k..]);
    assert d[..] == d;
    StandsSplit(d, 0, e, EncodeRecords(bs[k..]));
  }

  // The bytes of record k.
  lemma RecordBytes(d: Text, bs: seq<Binding>, k: nat)
    requires WholeFile(d, bs) && k < |bs|
    ensures var off, b := Offset(bs, k), bs[k];
            && ValidBinding(b) && off + |b.name| + 5 == Offset(bs, k + 1) <= |d|
            && d[off..off + |b.name|] == b.name && d[off + |b.name|] == '\0'
            && ReadWord(d, off + |b.name| + 1) == b.command
  {
    TailStands(d, bs, k);
    OffsetNext(bs, k);
    TailStands(d, bs, k + 1);
    FrontSplits(d, Offset(bs, k), bs[k..]);
    ValidFront(bs[k..]);
    assert bs[k..][0] == bs[k];
    RecordStands(d, Offset(bs, k), bs[k]);
  }

  lemma CountAtStart(d: Text, bs: seq<Binding>)
    requires WholeFile(d, bs)
    ensures Offset(bs, 0) == 4 <= |d| && ReadWord(d, 0) == |bs|
  {
    OffsetZero(bs);
    assert d[..] == d;
    StandsSplit(d, 0, WriteWord(|bs|), EncodeRecords(bs));
    WordExact(d, 0, |bs|);
  }

  lemma CountWord(d: Text, bs: seq<Binding>, k: nat)
    requires WholeFile(d, bs) && k < |bs|
    ensures Offset(bs, k) <= |d| && ReadWord(d, Offset(bs, k) - 4) == CountBefore(bs, k)
  {
    RecordBytes(d, bs, k);
    if k == 0 {
      CountAtStart(d, bs);
    } else {
      RecordBytes(d, bs, k - 1);
    }
  }

  lemma NothingAtEnd(d: Text, off: nat, count: nat)
    requires off == |d| && count > 0
    ensures ParseRecords(d, off, count).None?
  {
    assert NulFrom(d, off) == |d|;
  }

  lemma PastEndStep(d: Text, off: nat, count: nat, b: Binding, next: nat)
    requires off <= |d| && count > 0 && next <= |d| && RecordFrom(d, off) == Some((b, next)) && ParseRecords(d, next, count - 1).None?
    ensures ParseRecords(d, off, count).None?
  {
    ParseUnfolds(d, off, count, b, next);
  }

  lemma PastEndFront(d: Text, off: nat, tail: seq<Binding>, count: nat, next: nat)
    requires tail != [] && ValidBinding(tail[0]) && Stands(d, off, EncodeRecord(tail[0])) && count > 0
    requires next == off + |EncodeRecord(tail[0])| && ParseRecords(d, next, count - 1).None?
    ensures ParseRecords(d, off, count).None?
  {
    FrontReads(d, off, tail);
    PastEndStep(d, off, count, tail[0], next);
  }

  // Asked for more records than there are, the parser runs off the end of the file.
  lemma {:induction false} ParsePastEnd(d: Text, off: nat, tail: seq<Binding>, count: nat)
    requires Stands(d, off, EncodeRecords(tail)) && off + |EncodeRecords(tail)| == |d| && AllValid(tail) && count > |tail|
    ensures ParseRecords(d, off, count).None?
    decreases |tail|
  {
    if tail == [] {
      NothingAtEnd(d, off, count);
    } else {
      var next := off + |EncodeRecord(tail[0])|;
      FrontSplits(d, off, tail);
      ValidFront(tail);
      ParsePastEnd(d, next, tail[1..], count - 1);
      PastEndFront(d, off, tail, count, next);
    }
  }

  lemma ParsesFront(d: Text, off: nat, tail: seq<Binding>, c: nat)
    requires Stands(d, off, EncodeRecords(tail)) && AllValid(tail) && c <= |tail|
    ensures var r := ParseRecords(d, off, c); r.Some? && r.value.0 == tail[..c]
  {
    SplitAt(tail, c);
    StandsSplit(d, off, EncodeRecords(tail[..c]), EncodeRecords(tail[c..]));
    ParseOfEncode(d, off, tail[..c]);
  }

  lemma ParseWithCount(d: Text, off: nat, c: nat)
    requires 4 <= off <= |d| && ReadWord(d, off - 4) == c
    ensures var r := ParseRecords(d, off, c);
            Parse(d, off) == if c < MIN_COUNT || c > MAX_COUNT || r.None? then None else Some(r.value.0)
  {
  }

  lemma ParsesRest(d: Text, off: nat, tail: seq<Binding>, c: nat)
    requires Stands(d, off, EncodeRecords(tail)) && off + |EncodeRecords(tail)| == |d| && AllValid(tail)
    ensures var r := ParseRecords(d, off, c);
            if c <= |tail| then r.Some? && r.value.0 == tail[..c] else r.None?
  {
    if c <= |tail| {
      ParsesFront(d, off, tail, c);
    } else {
      ParsePastEnd(d, off, tail, c);
    }
  }

  lemma TailSlice(bs: seq<Binding>, k: nat, c: nat)
    requires k <= |bs| && c <= |bs| - k
    ensures bs[k..][..c] == bs[k..k + c]
  {
  }

  // At the beginning of record k the parser reads a table exactly if the word before it is a
  // count that the remaining records can meet.
  lemma ParseAtRecord(d: Text, bs: seq<Binding>, k: nat)
    requires WholeFile(d, bs) && k < |bs|
    ensures var (off, c) := (Offset(bs, k), CountBefore(bs, k));
            && off <= |d|
            && Parse(d, off) == if MIN_COUNT <= c <= |bs| - k then Some(bs[k..k + c]) else None
  {
    CountWord(d, bs, k);
    TailStands(d, bs, k);
    ParsesTail(d, Offset(bs, k), bs[k..], CountBefore(bs, k));
    if CountBefore(bs, k) <= |bs| - k {
      TailSlice(bs, k, CountBefore(bs, k));
    }
  }

  // The same, for records at the end of any file.
  lemma ParsesTail(d: Text, off: nat, tail: seq<Binding>, c: nat)
    requires 4 <= off <= |d| && ReadWord(d, off - 4) == c && |tail| <= MAX_COUNT
    requires Stands(d, off, EncodeRecords(tail)) && off + |EncodeRecords(tail)| == |d| && AllValid(tail)
    ensures Parse(d, off) == if MIN_COUNT <= c <= |tail| then Some(tail[..c]) else None
  {
    ParseWithCount(d, off, c);
    ParsesRest(d, off, tail, c);
  }

  lemma CandidateAtRecord(d: Text, bs: seq<Binding>, k: nat)
    requires WholeFile(d, bs) && k < |bs| && InnerTable(bs, k)
    ensures Candidate(d, Offset(bs, k))
  {
    var off := Offset(bs, k);
    RecordBytes(d, bs, k);
    TailStands(d, bs, k);
    EncodedSize(bs[k..]);
    KindStands(d, off, bs[k].name);
  }

  lemma TriedAtRecord(d: Text, bs: seq<Binding>, k: nat)
    requires WholeFile(d, bs) && k < |bs| && Candidate(d, Offset(bs, k))
    ensures Tried(bs[k].name)
  {
    var off, name := Offset(bs, k), bs[k].name;
    RecordBytes(d, bs, k);
    KindStands(d, off, name);
  }

  // Inside a name no offset has a small count before it.
  lemma NotInName(d: Text, off: nat, name: Text, i: nat)
    requires off + |name| <= |d| && d[off..off + |name|] == name && '\0' !in name
    requires 4 <= off < i < off + |name|
    ensures Parse(d, i).None?
  {
    var p := i - 1 - off;
    assert d[off..off + |name|][p] == name[p];
    assert d[i - 1] == name[p];
    assert name[p] in name;
    assert ReadWord(d, i - 4) >= 0x1000000 * (d[i - 1] as int) >= 0x1000000;
  }

  // In the bytes after a name no candidate's letters can stand.
  lemma NotInCommand(d: Text, nul: nat, i: nat)
    requires nul + 5 <= |d| && d[nul] == '\0' && ReadWord(d, nul + 1) <= MAX_COMMAND && nul <= i < nul + 5
    ensures !Candidate(d, i)
  {
    SmallWord(d, nul + 1, ReadWord(d, nul + 1));
    if Candidate(d, i) {
      CandidateLetters(d, i);
      assert false;
    }
  }

  lemma NotInside(d: Text, bs: seq<Binding>, k: nat, i: nat)
    requires WholeFile(d, bs) && k < |bs| && Offset(bs, k) < i < Offset(bs, k + 1)
    ensures !Accepted(d, i)
  {
    var off, name := Offset(bs, k), bs[k].name;
    RecordBytes(d, bs, k);
    if i < off + |name| {
      NotInName(d, off, name, i);
    } else {
      NotInCommand(d, off + |name|, i);
    }
  }

  // The bytes of a word of at most 4096.
  lemma SmallWord(d: Text, at: nat, n: Word)
    requires at + 4 <= |d| && ReadWord(d, at) == n <= MAX_COMMAND
    ensures d[at + 1] as int <= 16 && d[at + 2] == '\0' && d[at + 3] == '\0'
  {
  }

  lemma CandidateLetters(d: Text, i: nat)
    requires Candidate(d, i)
    ensures (d[i] == 'K' && d[i + 1] == 'e') || (d[i] == 'M' && d[i + 1] == 'o')
  {
  }

  lemma {:induction false} Locate(bs: seq<Binding>, n: nat, i: nat) returns (k: nat)
    requires n <= |bs| && 4 <= i < Offset(bs, n)
    ensures k < n && Offset(bs, k) <= i < Offset(bs, k + 1)
  {
    OffsetZero(bs);
    if n == 0 {
      assert false;
    } else if i >= Offset(bs, n - 1) {
      k := n - 1;
    } else {
      k := Locate(bs, n - 1, i);
    }
  }

  lemma AcceptedAt(d: Text, bs: seq<Binding>, k: nat)
    requires WholeFile(d, bs) && k < |bs| && InnerTable(bs, k)
    ensures Offset(bs, k) <= |d| && Accepted(d, Offset(bs, k))
  {
    ParseAtRecord(d, bs, k);
    CandidateAtRecord(d, bs, k);
  }

  /** In a file that is exactly one table, the scan accepts exactly the offsets where a key or
      mouse record begins and the word before it is a count the remaining records can meet. */
  lemma AcceptedInFile(d: Text, bs: seq<Binding>, i: nat)
    requires WholeFile(d, bs)
    ensures Accepted(d, i) <==> exists k: nat :: k < |bs| && Offset(bs, k) == i && InnerTable(bs, k)
  {
    if Accepted(d, i) {
      TailStands(d, bs, |bs|);
      assert EncodeRecords(bs[|bs|..]) == [];
      assert bs[..|bs|] == bs;
      var k := Locate(bs, |bs|, i);
      if i != Offset(bs, k) {
        NotInside(d, bs, k, i);
      }
      ParseAtRecord(d, bs, k);
      TriedAtRecord(d, bs, k);
    }
    if k: nat :| k < |bs| && Offset(bs, k) == i && InnerTable(bs, k) {
      AcceptedAt(d, bs, k);
    }
  }

  // Record k is the first at which an inner table begins.
  ghost predicate FirstInner(bs: seq<Binding>, k: nat) {
    k < |bs| && InnerTable(bs, k) && forall j :: 0 <= j < k ==> !InnerTable(bs, j)
  }

  // The offset the scan stops at is the first inner table's.
  lemma StopsAtFirstInner(d: Text, bs: seq<Binding>, at: nat) returns (m: nat)
    requires WholeFile(d, bs) && ScanStopsAt(d, at)
    ensures FirstInner(bs, m) && Offset(bs, m) == at <= |d| && Parse(d, at) == Some(bs[m..m + CountBefore(bs, m)])
  {
    AcceptedInFile(d, bs, at);
    m :| m < |bs| && Offset(bs, m) == at && InnerTable(bs, m);
    ParseAtRecord(d, bs, m);
    forall j | 0 <= j < m
      ensures !InnerTable(bs, j)
    {
      OffsetsGrow(bs, j, m);
      StoppedLater(d, bs, at, j);
    }
  }

  lemma StoppedLater(d: Text, bs: seq<Binding>, at: nat, j: nat)
    requires WholeFile(d, bs) && ScanStopsAt(d, at) && j < |bs| && Offset(bs, j) < at
    ensures !InnerTable(bs, j)
  {
    if InnerTable(bs, j) {
      AcceptedAt(d, bs, j);
    }
  }

  lemma NothingAccepted(d: Text, bs: seq<Binding>, k: nat)
    requires WholeFile(d, bs) && k < |bs| && forall j :: 0 <= j <= |d| ==> !Accepted(d, j)
    ensures !InnerTable(bs, k)
  {
    if InnerTable(bs, k) {
      AcceptedAt(d, bs, k);
    }
  }

  // The scan's answer, in terms of the records.
  ghost predicate ReturnsInner(bs: seq<Binding>, r: Option<seq<Binding>>) {
    if r.Some? then exists k: nat :: FirstInner(bs, k) && r == Some(bs[k..k + CountBefore(bs, k)])
    else forall k :: 0 <= k < |bs| ==> !InnerTable(bs, k)
  }

  /** What the scan returns on such a file: the records from the first inner table on, as many
      as the word before it says, and nothing if there is none. */
  lemma ScanOfFile(d: Text, bs: seq<Binding>, r: Option<seq<Binding>>)
    requires WholeFile(d, bs) && ScanAnswers(d, r)
    ensures ReturnsInner(bs, r)
  {
    if r.Some? {
      var at: nat :| ScanStopsAt(d, at) && r == Parse(d, at);
      var m := StopsAtFirstInner(d, bs, at);
    } else {
      forall k | 0 <= k < |bs|
        ensures !InnerTable(bs, k)
      {
        NothingAccepted(d, bs, k);
      }
    }
  }

  lemma WholeParses(d: Text, bs: seq<Binding>)
    requires WholeFile(d, bs)
    ensures 4 <= |d| && Parse(d, 4) == Some(bs)
  {
    OffsetZero(bs);
    ParseAtRecord(d, bs, 0);
    assert bs[0..0 + |bs|] == bs;
  }

  lemma PartReturned(bs: seq<Binding>, r: Option<seq<Binding>>)
    requires bs != [] && ReturnsInner(bs, r) && !Tried(bs[0].name)
    ensures r.None? || exists k: nat :: 0 < k < |bs| && FirstInner(bs, k) && r == Some(bs[k..k + bs[k - 1].command])
    ensures r.Some? ==> |r.value| < |bs|
  {
    if r.Some? {
      var k: nat :| FirstInner(bs, k) && r == Some(bs[k..k + CountBefore(bs, k)]);
      assert k > 0;
    }
  }

  /** A file that is one table beginning with a joystick or gamepad record: the whole table is
      valid to the parser, but the scan returns at most a part of it, behind a record whose
      command happens to be a possible count. */
  lemma JoystickFirst(d: Text, bs: seq<Binding>, r: Option<seq<Binding>>)
    requires WholeFile(d, bs) && (JoystickAt(bs[0].name, 0) || GamepadAt(bs[0].name, 0)) && ScanAnswers(d, r)
    ensures 4 <= |d| && Parse(d, 4) == Some(bs)
    ensures r.None? || exists k: nat :: 0 < k < |bs| && FirstInner(bs, k) && r == Some(bs[k..k + bs[k - 1].command])
    ensures r.Some? ==> |r.value| < |bs|
  {
    WholeParses(d, bs);
    ScanOfFile(d, bs, r);
    PartReturned(bs, r);
  }

  // ---- choosing an input -----------------------------------------------------------------------

  predicate Usable(b: Binding, want: nat) {
    b.command == want && b.Input() != 0
  }

  /** The first pressable input bound to a command, except that the Alt key is used only
      when nothing else is bound. */
  method InputFor(bs: seq<Binding>, want: nat) returns (r: Option<nat>)
    ensures r.Some? <==> exists i :: 0 <= i < |bs| && Usable(bs[i], want)
    ensures r.Some? && r.value != 0x12 ==>
              exists i :: 0 <= i < |bs| && Usable(bs[i], want) && bs[i].Input() == r.value
                          && forall j :: 0 <= j < i ==> !Usable(bs[j], want) || bs[j].Input() == 0x12
    ensures r == Some(0x12) ==> forall i :: 0 <= i < |bs| && Usable(bs[i], want) ==> bs[i].Input() == 0x12
  {
    var altOnly: Option<nat> := None;
    for i := 0 to |bs|
      invariant forall j :: 0 <= j < i ==> !Usable(bs[j], want) || bs[j].Input() == VK_MENU
      invariant altOnly == None || altOnly == Some(VK_MENU)
      invariant altOnly.Some? <==> exists j :: 0 <= j < i && Usable(bs[j], want)
    {
      var b := bs[i];
      if b.command != want || b.Input() == 0 {
        continue;
      }
      if b.Input() == VK_MENU {
        if altOnly.None? {
          altOnly := Some(b.Input());
        }
        continue;
      }
      return Some(b.Input());
    }
    r := altOnly;
  }
}
