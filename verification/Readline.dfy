/** readline of ulib.c: a line editor whose echo must always agree with its buffer. */
module Readline {
  import opened Words

  const KEY_BACKSPACE: int := 0x08
  const KEY_DELETE: int := 0x7f
  const LF: int := 0x0a
  const CR: int := 0x0d
  const BLANK: Byte := 0x20

  predicate IsEnter(ch: int) { ch == CR || ch == LF }
  predicate IsErase(ch: int) { ch == KEY_BACKSPACE || ch == KEY_DELETE }
  predicate IsPrintable(ch: int) { 0x20 <= ch <= 0x7e }

  /** The line after one more key. A full line takes no more characters. */
  function Edit(line: seq<Byte>, ch: int, size: int): seq<Byte> {
    if IsErase(ch) then if |line| > 0 then line[..|line| - 1] else line
    else if IsPrintable(ch) && |line| < size - 1 then line + [ch]
    else line
  }

  /** The line after all the keys. */
  function Edited(keys: seq<int>, size: int): seq<Byte> {
    if |keys| == 0 then [] else Edit(Edited(keys[..|keys| - 1], size), keys[|keys| - 1], size)
  }

  /** How many keys come before the first Enter. */
  function LineLength(input: seq<int>): (n: nat)
    ensures n <= |input|
    ensures n < |input| ==> IsEnter(input[n])
    ensures forall i :: 0 <= i < n ==> !IsEnter(input[i])
  {
    if |input| == 0 || IsEnter(input[0]) then 0 else 1 + LineLength(input[1..])
  }

  /** What readline prints for one key. */
  function EchoOf(line: seq<Byte>, ch: int, size: int): seq<Byte> {
    if IsErase(ch) then if |line| > 0 then [KEY_BACKSPACE, BLANK, KEY_BACKSPACE] else []
    else if IsPrintable(ch) && |line| < size - 1 then [ch]
    else []
  }

  function Echo(keys: seq<int>, size: int): seq<Byte> {
    if |keys| == 0 then []
    else Echo(keys[..|keys| - 1], size) + EchoOf(Edited(keys[..|keys| - 1], size), keys[|keys| - 1], size)
  }

  /** readline, on what getchar() returns. Input that ends before Enter leaves it
      waiting (`finished` is false). */
  method Readline(input: seq<int>, buf: array<Byte>, size: int) returns (finished: bool, len: nat, used: nat, echo: seq<Byte>)
    requires size <= buf.Length
    modifies buf
    ensures size <= 0 ==> finished && len == 0 && used == 0 && echo == [] && buf[..] == old(buf[..])
    ensures size > 0 ==>
      var n := LineLength(input);
      && (finished <==> n < |input|)
      && len == |Edited(input[..n], size)| < size && buf[..len] == Edited(input[..n], size)
      && (finished ==> used == n + 1 && buf[len] == 0 && echo == Echo(input[..n], size) + [0x0a])
      && (!finished ==> used == n && echo == Echo(input[..n], size))
    ensures forall i :: 0 <= i < buf.Length && i >= size ==> buf[i] == old(buf[i])
  {
    finished, len, used, echo := true, 0, 0, [];
    if size <= 0 {
      return;
    }
    hide Edited, Echo, LineLength;
    len, used, echo := ReadKeys(input, buf, size);
    if used == |input| {
      finished := false;
    } else {
      used, echo := used + 1, echo + [LF];
      buf[len] := 0;
    }
  }

  /** The loop of readline, up to the first Enter. */
  method ReadKeys(input: seq<int>, buf: array<Byte>, size: int) returns (len: nat, used: nat, echo: seq<Byte>)
    requires 0 < size <= buf.Length
    modifies buf
    ensures used == LineLength(input)
    ensures len < size && buf[..len] == Edited(input[..used], size) && echo == Echo(input[..used], size)
    ensures forall i :: 0 <= i < buf.Length && i >= size ==> buf[i] == old(buf[i])
  {
    hide Edited, Echo, LineLength;
    NoKeys(input, size);
    len, used, echo := 0, 0, [];
    while used < |input| && !IsEnter(input[used])
      invariant used <= |input| && forall i :: 0 <= i < used ==> !IsEnter(input[i])
      invariant len < size && buf[..len] == Edited(input[..used], size)
      invariant echo == Echo(input[..used], size)
      invariant forall i :: 0 <= i < buf.Length && i >= size ==> buf[i] == old(buf[i])
    {
      NextKey(input, used, size);
      var out;
      len, out := TakeKey(buf, len, size, input[used]);
      used, echo := used + 1, echo + out;
    }
    LineLengthIs(input, used);
  }

  /** The loop body of readline, for a key that is not Enter. */
  method TakeKey(buf: array<Byte>, len: nat, size: int, ch: int) returns (len': nat, out: seq<Byte>)
    requires len < size <= buf.Length
    modifies buf
    ensures len' < size && buf[..len'] == Edit(old(buf[..len]), ch, size)
    ensures out == EchoOf(old(buf[..len]), ch, size)
    ensures forall i :: 0 <= i < buf.Length && i >= size ==> buf[i] == old(buf[i])
  {
    len', out := len, [];
    if ch < 0 {
      return;
    }
    if ch == KEY_BACKSPACE || ch == KEY_DELETE {
      if len > 0 {
        len' := len - 1;
        out := [KEY_BACKSPACE, BLANK, KEY_BACKSPACE];
      }
      return;
    }
    if ch < 0x20 || ch > 0x7e {
      return;
    }
    if len < size - 1 {
      buf[len] := ch;
      len' := len + 1;
      out := [ch];
    }
  }

  lemma NoKeys(input: seq<int>, size: int)
    ensures Edited(input[..0], size) == [] && Echo(input[..0], size) == []
  {
  }

  lemma NextKey(input: seq<int>, n: nat, size: int)
    requires n < |input|
    ensures Edited(input[..n + 1], size) == Edit(Edited(input[..n], size), input[n], size)
    ensures Echo(input[..n + 1], size) == Echo(input[..n], size) + EchoOf(Edited(input[..n], size), input[n], size)
  {
    assert input[..n + 1][..n] == input[..n];
  }

  lemma {:induction false} LineLengthIs(input: seq<int>, n: nat)
    requires n <= |input| && (forall i :: 0 <= i < n ==> !IsEnter(input[i])) && (n < |input| ==> IsEnter(input[n]))
    ensures LineLength(input) == n
  {
    if n > 0 { LineLengthIs(input[1..], n - 1); }
  }

  /** Every key, in numbers: a character from blank to tilde is appended and printed
      while the line has room for it and a NUL; backspace and delete take the last
      character, if any, from line and screen; every other key does nothing. */
  lemma KeyByKey(keys: seq<int>, ch: int, size: int)
    requires size > 0
    ensures var (line, next) := (Edited(keys, size), Edited(keys + [ch], size));
      if 0x20 <= ch <= 0x7e && |line| < size - 1 then next == line + [ch]
      else if (ch == 0x08 || ch == 0x7f) && |line| > 0 then next == line[..|line| - 1]
      else next == line
    ensures var (out, more) := (Echo(keys, size), Echo(keys + [ch], size));
      if 0x20 <= ch <= 0x7e && |Edited(keys, size)| < size - 1 then more == out + [ch]
      else if (ch == 0x08 || ch == 0x7f) && |Edited(keys, size)| > 0 then more == out + [0x08, 0x20, 0x08]
      else more == out
    ensures Edited([], size) == [] && Echo([], size) == []
  {
    var all := keys + [ch];
    assert all[..|all| - 1] == keys && all[|all| - 1] == ch;
  }

  /** The line ends at the first LF or CR. */
  lemma {:induction false} LineEndsAtEnter(input: seq<int>)
    ensures forall i :: 0 <= i < LineLength(input) ==> input[i] != 0x0a && input[i] != 0x0d
    ensures LineLength(input) == |input| <==> 0x0a !in input && 0x0d !in input
    ensures LineLength(input) < |input| ==> input[LineLength(input)] == 0x0a || input[LineLength(input)] == 0x0d
  {
    if |input| > 0 && !IsEnter(input[0]) {
      LineEndsAtEnter(input[1..]);
      assert input == [input[0]] + input[1..];
    }
  }

  /** The line fits, and holds characters from blank to tilde only: no NUL inside. */
  lemma {:induction false} LineIsText(keys: seq<int>, size: int)
    requires size > 0
    ensures |Edited(keys, size)| <= size - 1
    ensures forall i :: 0 <= i < |Edited(keys, size)| ==> 0x20 <= Edited(keys, size)[i] <= 0x7e
  {
    if |keys| > 0 { LineIsText(keys[..|keys| - 1], size); }
  }

  /** Without erasing, the line is the printable keys, cut at size - 1. */
  function Printables(keys: seq<int>): (text: seq<Byte>)
  {
    if |keys| == 0 then []
    else Printables(keys[..|keys| - 1]) + if IsPrintable(keys[|keys| - 1]) then [keys[|keys| - 1]] else []
  }

  lemma {:induction false} PlainLine(keys: seq<int>, size: int)
    requires size > 0 && forall i :: 0 <= i < |keys| ==> !IsErase(keys[i])
    ensures Edited(keys, size) == if |Printables(keys)| < size then Printables(keys) else Printables(keys)[..size - 1]
  {
    if |keys| > 0 { PlainLine(keys[..|keys| - 1], size); }
  }

  /** An erase takes back the last character accepted, and nothing else. */
  lemma EraseUndoes(keys: seq<int>, ch: int, erase: int, size: int)
    requires IsPrintable(ch) && IsErase(erase) && |Edited(keys, size)| < size - 1
    ensures Edited(keys + [ch] + [erase], size) == Edited(keys, size)
  {
    var (typed, erased) := (keys + [ch], keys + [ch] + [erase]);
    assert typed[..|typed| - 1] == keys && erased[..|erased| - 1] == typed;
  }

  // ---- the screen ----

  /** A terminal of unlimited width: the finished lines, the current row, the cursor. */
  datatype Screen = Screen(above: seq<seq<Byte>>, row: seq<Byte>, cursor: nat)

  function Show(s: Screen, c: Byte): Screen {
    if c == LF then Screen(s.above + [s.row], [], 0)
    else if c == KEY_BACKSPACE then s.(cursor := if s.cursor > 0 then s.cursor - 1 else 0)
    else if s.cursor < |s.row| then s.(row := s.row[s.cursor := c], cursor := s.cursor + 1)
    else s.(row := s.row + [c], cursor := |s.row| + 1)
  }

  function ShowAll(s: Screen, output: seq<Byte>): Screen {
    if |output| == 0 then s else Show(ShowAll(s, output[..|output| - 1]), output[|output| - 1])
  }

  /** The current row reads as the text, with the cursor behind it and blanks after. */
  ghost predicate Reads(s: Screen, text: seq<Byte>) {
    && s.cursor == |text| <= |s.row| && s.row[..|text|] == text
    && forall i :: |text| <= i < |s.row| ==> s.row[i] == BLANK
  }

  lemma {:induction false} ShowJoins(s: Screen, a: seq<Byte>, b: seq<Byte>)
    ensures ShowAll(s, a + b) == ShowAll(ShowAll(s, a), b)
  {
    if |b| == 0 {
      assert a + b == a;
    } else {
      assert (a + b)[..|a + b| - 1] == a + b[..|b| - 1];
      ShowJoins(s, a, b[..|b| - 1]);
    }
  }

  lemma ShowThree(s: Screen, a: Byte, b: Byte, c: Byte)
    ensures ShowAll(s, [a]) == Show(s, a) && ShowAll(s, [a, b, c]) == Show(Show(Show(s, a), b), c)
  {
    assert [a][..0] == [] && [a, b, c][..2] == [a, b] && [a, b][..1] == [a];
    assert ShowAll(s, []) == s && ShowAll(s, [a]) == Show(s, a) && ShowAll(s, [a, b]) == Show(Show(s, a), b);
  }

  /** One key keeps screen and buffer in agreement, whatever stands before the line. */
  lemma KeyKeepsAgreement(s: Screen, prompt: seq<Byte>, line: seq<Byte>, ch: int, size: int)
    requires Reads(s, prompt + line)
    ensures Reads(ShowAll(s, EchoOf(line, ch, size)), prompt + Edit(line, ch, size))
    ensures ShowAll(s, EchoOf(line, ch, size)).above == s.above
  {
    ShowThree(s, KEY_BACKSPACE, BLANK, KEY_BACKSPACE);
    if IsErase(ch) {
      if |line| > 0 {
        var text, shorter := prompt + line, prompt + line[..|line| - 1];
        assert shorter == text[..|text| - 1];
        var t := Show(Show(Show(s, KEY_BACKSPACE), BLANK), KEY_BACKSPACE);
        assert t.row == s.row[|shorter| := BLANK];
      }
    } else if IsPrintable(ch) && |line| < size - 1 {
      ShowThree(s, ch, 0, 0);
      assert prompt + (line + [ch]) == prompt + line + [ch];
    }
  }

  /** For every input: at every moment the row shows the prompt and exactly the
      bytes in the buffer, with the cursor behind them. */
  lemma {:induction false} ScreenAgrees(s: Screen, prompt: seq<Byte>, keys: seq<int>, size: int)
    requires Reads(s, prompt)
    ensures Reads(ShowAll(s, Echo(keys, size)), prompt + Edited(keys, size))
    ensures ShowAll(s, Echo(keys, size)).above == s.above
  {
    if |keys| == 0 {
      assert prompt + [] == prompt;
    } else {
      var before, ch := keys[..|keys| - 1], keys[|keys| - 1];
      ScreenAgrees(s, prompt, before, size);
      ShowJoins(s, Echo(before, size), EchoOf(Edited(before, size), ch, size));
      KeyKeepsAgreement(ShowAll(s, Echo(before, size)), prompt, Edited(before, size), ch, size);
    }
  }

  /** After Enter the finished row is the prompt and the line, and a new row begins. */
  lemma EnterFinishesRow(s: Screen, prompt: seq<Byte>, keys: seq<int>, size: int)
    requires Reads(s, prompt)
    ensures var t, text := ShowAll(s, Echo(keys, size) + [LF]), prompt + Edited(keys, size);
      && t.row == [] && t.cursor == 0 && |t.above| == |s.above| + 1 && t.above[..|s.above|] == s.above
      && |text| <= |t.above[|s.above|]| && t.above[|s.above|][..|text|] == text
      && forall i :: |text| <= i < |t.above[|s.above|]| ==> t.above[|s.above|][i] == BLANK
  {
    ScreenAgrees(s, prompt, keys, size);
    ShowJoins(s, Echo(keys, size), [LF]);
    ShowThree(ShowAll(s, Echo(keys, size)), LF, 0, 0);
  }
}
