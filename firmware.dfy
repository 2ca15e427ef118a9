/**
  The command parser of the gantry firmware, Embedded/src/main.cpp: the line read from the serial port
  is split at its first two spaces into a command word and two step targets, as the Arduino String
  class does it on an AVR board (16-bit int and unsigned int), and the command word is matched.
*/
module Firmware {

  /** CommandType. */
  datatype CommandType = Move | Home | Stop

  /** parseCommand: exact matches of "MOVE" and "HOME" and "STOP"; any other word is STOP. */
  function ParseCommand(cmd: string): (r: CommandType)
    ensures r == Move <==> cmd == "MOVE"
    ensures r == Home <==> cmd == "HOME"
    ensures r == Stop <==> cmd != "MOVE" && cmd != "HOME"
  {
    if cmd == "MOVE" then Move
    else if cmd == "HOME" then Home
    else if cmd == "STOP" then Stop
    else Stop
  }

  /**
    A 16-bit int converted to the 16-bit unsigned int a String method takes: a negative value wraps
    to value + 65536 (so -1 becomes 65535).
  */
  function ToUnsigned(i: int): (u: nat)
    requires -0x8000 <= i < 0x8000
    ensures u < 0x1_0000
    ensures 0 <= i ==> u == i
    ensures i < 0 ==> u == i + 0x1_0000
  {
    if i < 0 then i + 0x1_0000 else i
  }

  /** String::indexOf(ch, fromIndex): the first index at or after fromIndex holding ch, or -1. */
  function IndexOf(s: string, ch: char, fromIndex: nat): (r: int)
    ensures r == -1 <==> forall k :: fromIndex <= k < |s| ==> s[k] != ch
    ensures r != -1 ==> fromIndex <= r < |s| && s[r] == ch && forall k :: fromIndex <= k < r ==> s[k] != ch
    decreases |s| - fromIndex
  {
    if fromIndex >= |s| then -1
    else if s[fromIndex] == ch then fromIndex
    else IndexOf(s, ch, fromIndex + 1)
  }

  /**
    String::substring(left, right): the bounds are swapped when left > right, the result is empty when
    left is at or past the end, and right is clamped to the length.
  */
  function Substring(s: string, left: nat, right: nat): (r: string)
    ensures left <= right <= |s| ==> r == s[left..right]
    ensures left <= right && left < |s| && right > |s| ==> r == s[left..]
    ensures right < left && left <= |s| ==> r == s[right..left]
    ensures right < left && right < |s| < left ==> r == s[right..]
    ensures Min(left, right) >= |s| ==> r == ""
  {
    var (lo, hi) := if left > right then (right, left) else (left, right);
    if lo >= |s| then "" else s[lo..if hi > |s| then |s| else hi]
  }

  function Min(a: int, b: int): int {
    if a < b then a else b
  }

  /** String::substring(left): the rest of the string from left on. */
  function SubstringFrom(s: string, left: nat): (r: string)
    ensures left <= |s| ==> r == s[left..]
    ensures left > |s| ==> r == ""
  {
    Substring(s, left, |s|)
  }

  /** isspace() in the C locale: ' ', '\t', '\n', '\v', '\f' and '\r'. */
  predicate IsSpace(c: char) {
    c == ' ' || '\t' <= c <= '\r'
  }

  predicate IsDigit(c: char) {
    '0' <= c <= '9'
  }

  /** The leading run of decimal digits. */
  function LeadingDigits(s: string): (d: string)
    ensures |d| <= |s| && d == s[..|d|]
    ensures forall k :: 0 <= k < |d| ==> IsDigit(d[k])
    ensures |d| < |s| ==> !IsDigit(s[|d|])
  {
    if s != [] && IsDigit(s[0]) then [s[0]] + LeadingDigits(s[1..]) else []
  }

  /** The value of a string of decimal digits. */
  function DigitsValue(d: string): (n: nat)
    requires forall k :: 0 <= k < |d| ==> IsDigit(d[k])
  {
    if d == [] then 0
    else
      assert IsDigit(d[|d| - 1]);
      DigitsValue(d[..|d| - 1]) * 10 + (d[|d| - 1] as int - '0' as int)
  }

  /** The string with its leading isspace() characters dropped. */
  function SkipSpace(s: string): (t: string)
    ensures |t| <= |s| && t == s[|s| - |t|..]
    ensures t == [] || !IsSpace(t[0])
    ensures forall k :: 0 <= k < |s| - |t| ==> IsSpace(s[k])
  {
    if s != [] && IsSpace(s[0]) then SkipSpace(s[1..]) else s
  }

  /**
    String::toInt, which is atol: leading white space, an optional sign, then the leading decimal
    digits; 0 when there are none.
  */
  function ToInt(s: string): (n: int)
    ensures LeadingDigits(SkipSpace(s)) == [] && (SkipSpace(s) == [] || (SkipSpace(s)[0] != '-' && SkipSpace(s)[0] != '+')) ==> n == 0
  {
    var t := SkipSpace(s);
    if t != [] && t[0] == '-' then 0 - DigitsValue(LeadingDigits(t[1..])) as int
    else if t != [] && t[0] == '+' then DigitsValue(LeadingDigits(t[1..]))
    else DigitsValue(LeadingDigits(t))
  }

  /** str(n) for n >= 0: decimal digits without leading zeros. */
  function NatToDecimal(n: nat): (d: string)
    ensures d != [] && forall k :: 0 <= k < |d| ==> IsDigit(d[k])
    ensures forall k :: 0 <= k < |d| ==> d[k] != ' ' && d[k] != '\n'
  {
    if n < 10 then [('0' as int + n) as char]
    else NatToDecimal(n / 10) + [('0' as int + n % 10) as char]
  }

  /** str(i): Python's decimal form of an int, with a leading '-' when negative. */
  function IntToDecimal(i: int): (d: string)
    ensures d != [] && forall k :: 0 <= k < |d| ==> d[k] != ' ' && d[k] != '\n' && !IsSpace(d[k])
    ensures d[0] == '-' <==> i < 0
  {
    if i < 0 then "-" + NatToDecimal(-i) else NatToDecimal(i)
  }

  /** Reading the digits of a number back gives the number. */
  lemma {:induction false} DigitsValueOfDecimal(n: nat)
    ensures DigitsValue(NatToDecimal(n)) == n
  {
    if n >= 10 {
      DigitsValueOfDecimal(n / 10);
      var d := NatToDecimal(n);
      assert d[..|d| - 1] == NatToDecimal(n / 10);
    }
  }

  /** The leading digits of a digit string followed by a non-digit (or nothing) are that digit string. */
  lemma {:induction false} LeadingDigitsOfDigits(d: string, rest: string)
    requires forall k :: 0 <= k < |d| ==> IsDigit(d[k])
    requires rest == [] || !IsDigit(rest[0])
    ensures LeadingDigits(d + rest) == d
  {
    if d != [] {
      LeadingDigitsOfDigits(d[1..], rest);
      assert (d + rest)[1..] == d[1..] + rest;
    }
  }

  /** toInt(str(i)) == i: atol reads back what Python's str writes. */
  lemma ToIntOfDecimal(i: int)
    ensures ToInt(IntToDecimal(i)) == i
  {
    var n: nat := if i < 0 then -i else i;
    DigitsValueOfDecimal(n);
    LeadingDigitsOfDigits(NatToDecimal(n), []);
    assert NatToDecimal(n) + [] == NatToDecimal(n);
    if i < 0 {
      assert ("-" + NatToDecimal(n))[1..] == NatToDecimal(n);
    }
  }

  /**
    Serial.readStringUntil(terminator) on the bytes `stream` still to be read: the characters before
    the first terminator, which is consumed; without a terminator, everything (the read times out).
  */
  function ReadStringUntil(stream: string, terminator: char): (r: (string, string))
    ensures terminator in stream ==> r.0 + [terminator] + r.1 == stream && terminator !in r.0
    ensures terminator !in stream ==> r.0 == stream && r.1 == ""
  {
    var k := IndexOf(stream, terminator, 0);
    if k == -1 then (stream, "") else (stream[..k], stream[k + 1..])
  }

  /** The line Control.send_command writes for step targets a and b: f"MOVE {a} {b}\n". */
  function Frame(a: int, b: int): (frame: string)
    ensures frame != [] && frame[|frame| - 1] == '\n' && '\n' !in frame[..|frame| - 1]
  {
    "MOVE " + IntToDecimal(a) + " " + IntToDecimal(b) + "\n"
  }

  /** The three pieces a line is cut into: the command word and the texts of the two targets. */
  datatype Fields = Fields(word: string, first: string, second: string)

  /**
    The indexOf/substring cutting of a line in loop(): the word is the text before the first space (the whole line when there
    is none). With two spaces, the targets are the texts between them and after the second. With one
    space, the first target is the text after it and the second the whole line; with none, both are the
    whole line (an index of -1 plus one is 0, and a right bound of -1 is 65535, past the end).
  */
  function SplitLine(input: string): (f: Fields)
    requires |input| < 0x8000
    ensures |f.word| <= |input| && |f.first| <= |input| && |f.second| <= |input|
  {
    var firstSpace := IndexOf(input, ' ', 0);
    var secondSpace := IndexOf(input, ' ', ToUnsigned(firstSpace + 1));
    Fields(Substring(input, 0, ToUnsigned(firstSpace)),
           Substring(input, ToUnsigned(firstSpace + 1), ToUnsigned(secondSpace)),
           SubstringFrom(input, ToUnsigned(secondSpace + 1)))
  }

  /** What loop() takes from one line: the command word, its command and the two targets. */
  datatype ParsedLine = ParsedLine(word: string, command: CommandType, target1: int, target2: int)

  /**
    The line handling of loop() up to the command match: the word is the text before the first space (the whole line
    without one); after two spaces the targets are the numbers between them and after the second; with
    only one space, the number after it and the number the whole line starts with; with none, both the
    number the line starts with.
  */
  function ParseLine(input: string): (p: ParsedLine)
    requires |input| < 0x8000
    ensures p.command == ParseCommand(p.word)
    ensures NoSpaceAfter(input, -1) ==> p.word == input && p.target1 == ToInt(input) && p.target2 == ToInt(input)
    ensures forall i :: NextSpace(input, -1, i) ==> p.word == input[..i]
    ensures forall i :: NextSpace(input, -1, i) && NoSpaceAfter(input, i) ==>
      p.target1 == ToInt(input[i + 1..]) && p.target2 == ToInt(input)
    ensures forall i, j :: NextSpace(input, -1, i) && NextSpace(input, i, j) ==>
      p.target1 == ToInt(input[i + 1..j]) && p.target2 == ToInt(input[j + 1..])
  {
    SplitLineCases(input);
    var f := SplitLine(input);
    ParsedLine(f.word, ParseCommand(f.word), ToInt(f.first), ToInt(f.second))
  }

  /** The first space of s after index `after` is at i (after == -1: the first space of s). */
  predicate NextSpace(s: string, after: int, i: int) {
    after < i < |s| && 0 <= i && s[i] == ' ' && forall k :: after < k < i && 0 <= k ==> s[k] != ' '
  }

  /** s has no space after index `after`. */
  predicate NoSpaceAfter(s: string, after: int) {
    forall k :: after < k < |s| && 0 <= k ==> s[k] != ' '
  }

  /** IndexOf finds exactly the first occurrence at or after fromIndex. */
  lemma IndexOfIs(s: string, ch: char, fromIndex: nat, i: int)
    requires fromIndex <= i < |s| && s[i] == ch && forall k :: fromIndex <= k < i ==> s[k] != ch
    ensures IndexOf(s, ch, fromIndex) == i
  {
  }

  /** A line without spaces: the word and both target texts are the whole line. */
  lemma SplitLineNoSpace(input: string)
    requires |input| < 0x8000
    requires forall k :: 0 <= k < |input| ==> input[k] != ' '
    ensures SplitLine(input) == Fields(input, input, input)
  {
    assert IndexOf(input, ' ', 0) == -1;
    assert ToUnsigned(-1) == 0xFFFF && ToUnsigned(0) == 0;
    assert input[0..|input|] == input;
  }

  /**
    A line with one space, at i: the word is the text before it, the first target the text after it,
    and the second target the whole line.
  */
  lemma SplitLineOneSpace(input: string, i: nat)
    requires |input| < 0x8000 && i < |input| && input[i] == ' '
    requires forall k :: 0 <= k < |input| && k != i ==> input[k] != ' '
    ensures SplitLine(input) == Fields(input[..i], input[i + 1..], input)
  {
    IndexOfIs(input, ' ', 0, i);
    var fs := IndexOf(input, ' ', 0);
    assert fs == i;
    var ss := IndexOf(input, ' ', ToUnsigned(fs + 1));
    assert ss == -1;
    assert ToUnsigned(ss) == 0xFFFF && ToUnsigned(ss + 1) == 0;
    assert Substring(input, 0, ToUnsigned(fs)) == input[..i];
    assert Substring(input, ToUnsigned(fs + 1), ToUnsigned(ss)) == input[i + 1..];
    assert SubstringFrom(input, ToUnsigned(ss + 1)) == input by { assert input[0..|input|] == input; }
  }

  /**
    A line whose first two spaces are at i and j: the word is the text before i, and the target texts
    are the ones between i and j and after j.
  */
  lemma SplitLineTwoSpaces(input: string, i: nat, j: nat)
    requires |input| < 0x8000 && i < j < |input| && input[i] == ' ' && input[j] == ' '
    requires forall k :: 0 <= k < j && k != i ==> input[k] != ' '
    ensures SplitLine(input) == Fields(input[..i], input[i + 1..j], input[j + 1..])
  {
    IndexOfIs(input, ' ', 0, i);
    IndexOfIs(input, ' ', i + 1, j);
    var fs := IndexOf(input, ' ', 0);
    assert fs == i;
    var ss := IndexOf(input, ' ', ToUnsigned(fs + 1));
    assert ss == j;
    assert Substring(input, 0, ToUnsigned(fs)) == input[..i];
    assert Substring(input, ToUnsigned(fs + 1), ToUnsigned(ss)) == input[i + 1..j];
    assert SubstringFrom(input, ToUnsigned(ss + 1)) == input[j + 1..];
  }

  /** The three shapes of a line, each with the pieces SplitLine cuts it into. */
  lemma SplitLineCases(input: string)
    requires |input| < 0x8000
    ensures NoSpaceAfter(input, -1) ==> SplitLine(input) == Fields(input, input, input)
    ensures forall i :: NextSpace(input, -1, i) ==> SplitLine(input).word == input[..i]
    ensures forall i :: NextSpace(input, -1, i) && NoSpaceAfter(input, i) ==>
      SplitLine(input) == Fields(input[..i], input[i + 1..], input)
    ensures forall i, j :: NextSpace(input, -1, i) && NextSpace(input, i, j) ==>
      SplitLine(input) == Fields(input[..i], input[i + 1..j], input[j + 1..])
  {
    if NoSpaceAfter(input, -1) {
      SplitLineNoSpace(input);
    }
    forall i | NextSpace(input, -1, i)
      ensures SplitLine(input).word == input[..i]
    {
      if NoSpaceAfter(input, i) {
        SplitLineOneSpace(input, i);
      } else {
        var j :| i < j < |input| && input[j] == ' ';
        NextSpaceExists(input, i, j);
        var j' :| NextSpace(input, i, j');
        SplitLineTwoSpaces(input, i, j');
      }
    }
    forall i | NextSpace(input, -1, i) && NoSpaceAfter(input, i)
      ensures SplitLine(input) == Fields(input[..i], input[i + 1..], input)
    {
      SplitLineOneSpace(input, i);
    }
    forall i, j | NextSpace(input, -1, i) && NextSpace(input, i, j)
      ensures SplitLine(input) == Fields(input[..i], input[i + 1..j], input[j + 1..])
    {
      SplitLineTwoSpaces(input, i, j);
    }
  }

  /** A space after index `after` means there is a first one. */
  lemma {:induction false} NextSpaceExists(s: string, after: int, j: int)
    requires -1 <= after < j < |s| && s[j] == ' '
    ensures exists i :: NextSpace(s, after, i)
    decreases j - after
  {
    if s[after + 1] == ' ' {
      assert NextSpace(s, after, after + 1);
    } else {
      NextSpaceExists(s, after + 1, j);
      var i :| NextSpace(s, after + 1, i);
      assert NextSpace(s, after, i);
    }
  }

  /**
    The sender and the parser agree: a framed MOVE line, read up to its newline, parses to MOVE with
    the two targets it was built from (for targets that fit in a 32-bit long).
  */
  lemma FrameRoundTrip(a: int, b: int, rest: string)
    requires -0x8000_0000 <= a < 0x8000_0000 && -0x8000_0000 <= b < 0x8000_0000
    ensures var (line, remaining) := ReadStringUntil(Frame(a, b) + rest, '\n');
      && remaining == rest
      && |line| < 0x8000
      && ParseLine(line) == ParsedLine("MOVE", Move, a, b)
  {
    var da, db := IntToDecimal(a), IntToDecimal(b);
    var line := "MOVE " + da + " " + db;
    assert Frame(a, b) + rest == line + "\n" + rest;
    assert '\n' !in line;
    var r := ReadStringUntil(Frame(a, b) + rest, '\n');
    assert r.0 == line && r.1 == rest by {
      assert r.0 + ['\n'] + r.1 == line + ['\n'] + rest && '\n' !in r.0;
      SplitAtFirst(r.0, r.1, line, rest, '\n');
    }
    DecimalLength(a);
    DecimalLength(b);
    var j := 5 + |da|;
    assert line[4] == ' ' && line[..4] == "MOVE";
    assert line[5..j] == da && line[j] == ' ' && line[j + 1..] == db;
    assert forall k :: 5 <= k < j ==> line[k] == da[k - 5];
    SplitLineTwoSpaces(line, 4, j);
    ToIntOfDecimal(a);
    ToIntOfDecimal(b);
  }

  /** The decimal form of a 32-bit value has at most 11 characters. */
  lemma DecimalLength(i: int)
    requires -0x8000_0000 <= i < 0x8000_0000
    ensures |IntToDecimal(i)| <= 11
  {
    var n: nat := if i < 0 then -i else i;
    NatDecimalLength(n, 10);
  }

  lemma {:induction false} NatDecimalLength(n: nat, k: nat)
    requires n < Pow10(k)
    ensures |NatToDecimal(n)| <= if k == 0 then 1 else k
  {
    if n >= 10 {
      assert k >= 2 by {
        assert Pow10(0) == 1 && Pow10(1) == 10;
      }
      NatDecimalLength(n / 10, k - 1);
    }
  }

  function Pow10(k: nat): (p: nat)
    ensures p >= 1
  {
    if k == 0 then 1 else 10 * Pow10(k - 1)
  }

  /** Two splits at the first terminator of the same string are the same split. */
  lemma SplitAtFirst(a: string, b: string, c: string, d: string, t: char)
    requires a + [t] + b == c + [t] + d && t !in a && t !in c
    ensures a == c && b == d
  {
    var s := a + [t] + b;
    assert s[|a|] == t && s[|c|] == t;
    assert forall k :: 0 <= k < |a| ==> s[k] == a[k];
    assert forall k :: 0 <= k < |c| ==> s[k] == c[k];
    assert |a| == |c|;
    assert a == s[..|a|] && c == s[..|c|];
    assert b == s[|a| + 1..] && d == s[|c| + 1..];
  }

  /** What loop() does with the motors for a parsed line. */
  datatype Action = MoveTo(stepper1: int, stepper2: int) | Homing | Halt

  /** The firmware's globals written by loop(). */
  class Sketch {
    /** targetPos_stepper1 and targetPos_stepper2. */
    var targetPosStepper1: int
    var targetPosStepper2: int
    /** positions[2], handed to MultiStepper::moveTo. */
    const positions: array<int>

    ghost predicate Valid()
      reads this
    {
      positions.Length == 2
    }

    constructor ()
      ensures Valid() && fresh(positions)
      ensures targetPosStepper1 == 0 && targetPosStepper2 == 0 && positions[..] == [0, 0]
    {
      targetPosStepper1, targetPosStepper2 := 0, 0;
      positions := new int[2](_ => 0);
    }

    /**
      The rest of loop() for an already split line: both targets and positions[] are set from it
      whatever the command, and the command selects the motor action.
    */
    method Apply(line: ParsedLine) returns (action: Action)
      requires Valid()
      modifies this, positions
      ensures Valid()
      ensures targetPosStepper1 == line.target1 && targetPosStepper2 == line.target2
      ensures positions[0] == line.target1 && positions[1] == line.target2
      ensures action == match line.command
                        case Move => MoveTo(line.target1, line.target2)
                        case Home => Homing
                        case Stop => Halt
    {
      targetPosStepper1, targetPosStepper2 := line.target1, line.target2;
      positions[0] := targetPosStepper1;
      positions[1] := targetPosStepper2;
      match line.command
      case Move => action := MoveTo(positions[0], positions[1]);
      case Home => action := Homing;
      case Stop => action := Halt;
    }

    /**
      One pass of loop() with a line available: the line is split as ParseLine does, both targets and
      positions[] are set from it whatever the command, and the command word selects the motor action.
      Only the word "MOVE" moves the motors; an unknown word stops them.
    */
    method HandleLine(input: string) returns (action: Action)
      requires Valid() && |input| < 0x8000
      modifies this, positions
      ensures Valid()
      ensures targetPosStepper1 == ParseLine(input).target1 && targetPosStepper2 == ParseLine(input).target2
      ensures positions[0] == targetPosStepper1 && positions[1] == targetPosStepper2
      ensures action == match ParseLine(input).command
                        case Move => MoveTo(targetPosStepper1, targetPosStepper2)
                        case Home => Homing
                        case Stop => Halt
      ensures action.MoveTo? <==> ParseLine(input).word == "MOVE"
    {
      action := Apply(ParseLine(input));
    }
  }
}
