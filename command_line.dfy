/**
 * How the server's console loop reads one input line (echo_dvc_server/src/main.rs, `run`): the line
 * is trimmed of whitespace, split at its first space into a command word and an argument, the
 * command word is upper-cased and matched against the four keywords.
 */
module CommandLine {
  import opened Common
  import opened Trimming

  // ---------------------------------------------------------------------------------------------
  // Characters

  /** `char::is_whitespace`: the characters with the Unicode White_Space property. */
  predicate IsWhitespace(c: char)
  {
    c == ' ' || ('\t' <= c <= '\r') || c == '\U{0085}' || c == '\U{00A0}' || c == '\U{1680}'
    || ('\U{2000}' <= c <= '\U{200A}') || c == '\U{2028}' || c == '\U{2029}' || c == '\U{202F}'
    || c == '\U{205F}' || c == '\U{3000}'
  }

  /**
   * The upper case of one character, as far as it can name a command: ASCII letters, and the two
   * non-ASCII letters whose upper case is an ASCII letter (dotless i and long s).
   */
  function UpperChar(c: char): (u: char)
    ensures 'a' <= c <= 'z' ==> u as int == c as int - 32
    ensures !('a' <= c <= 'z') && c != '\U{0131}' && c != '\U{017F}' ==> u == c
  {
    if 'a' <= c <= 'z' then (c as int - 32) as char
    else if c == '\U{0131}' then 'I'
    else if c == '\U{017F}' then 'S'
    else c
  }

  /** `str::to_uppercase`, character by character. */
  function ToUpper(s: string): (u: string)
    ensures |u| == |s|
    ensures forall i | 0 <= i < |s| :: u[i] == UpperChar(s[i])
  {
    if s == [] then [] else ToUpper(s[..|s| - 1]) + [UpperChar(s[|s| - 1])]
  }

  /** The characters that upper-case to the ASCII capital `k`. */
  predicate NamesLetter(c: char, k: char)
    requires 'A' <= k <= 'Z'
  {
    c == k || c as int == k as int + 32 || (k == 'I' && c == '\U{0131}') || (k == 'S' && c == '\U{017F}')
  }

  /**
   * A word upper-cases to an all-capital ASCII keyword exactly when it spells the keyword letter by
   * letter in either case: this is what makes the command match case-insensitive.
   */
  lemma ToUpperMatchesKeyword(w: string, key: string)
    requires forall i | 0 <= i < |key| :: 'A' <= key[i] <= 'Z'
    ensures ToUpper(w) == key <==> |w| == |key| && forall i | 0 <= i < |w| :: NamesLetter(w[i], key[i])
  {
    var u := ToUpper(w);
    if u == key {
      forall i | 0 <= i < |w| ensures NamesLetter(w[i], key[i]) {
        UpperCharNames(w[i], key[i]);
      }
    }
    if |w| == |key| && forall i | 0 <= i < |w| :: NamesLetter(w[i], key[i]) {
      forall i | 0 <= i < |w| ensures u[i] == key[i] {
        UpperCharNames(w[i], key[i]);
      }
      assert u == key;
    }
  }

  /** One character upper-cases to an ASCII capital exactly when it names that letter. */
  lemma UpperCharNames(c: char, k: char)
    requires 'A' <= k <= 'Z'
    ensures UpperChar(c) == k <==> NamesLetter(c, k)
  {
  }

  /** Upper-casing an upper-cased word changes nothing. */
  lemma ToUpperIdempotent(s: string)
    ensures ToUpper(ToUpper(s)) == ToUpper(s)
  {
    var u := ToUpper(s);
    forall i | 0 <= i < |s| ensures ToUpper(u)[i] == u[i] {
      assert u[i] == UpperChar(s[i]);
    }
  }

  // ---------------------------------------------------------------------------------------------
  // The line

  /** The index of the first space at or after `i`, or `|line|` if there is none. */
  function SpaceFrom(line: string, i: nat): (k: nat)
    requires i <= |line|
    ensures i <= k <= |line|
    decreases |line| - i
  {
    if i == |line| || line[i] == ' ' then i else SpaceFrom(line, i + 1)
  }

  /** `str::split_once(' ')` with `unwrap_or((line, ""))`: the text before and after the first space. */
  function SplitOnce(line: string): (string, string)
  {
    var k := SpaceFrom(line, 0);
    if k == |line| then (line, "") else (line[..k], line[k + 1..])
  }

  /** `SpaceFrom` passes over non-spaces only and stops at a space. */
  lemma {:induction false} SpaceFromSkips(line: string, i: nat)
    requires i <= |line|
    ensures forall m | i <= m < SpaceFrom(line, i) :: line[m] != ' '
    ensures SpaceFrom(line, i) < |line| ==> line[SpaceFrom(line, i)] == ' '
    decreases |line| - i
  {
    if i < |line| && line[i] != ' ' {
      SpaceFromSkips(line, i + 1);
    }
  }

  /**
   * The command word holds no space; when the line has a space, the line is the command word, that
   * space and the argument; when it has none, the whole line is the command and the argument is empty.
   */
  lemma SplitOnceSplits(line: string)
    ensures ' ' !in SplitOnce(line).0
    ensures ' ' in line ==> line == SplitOnce(line).0 + " " + SplitOnce(line).1
    ensures ' ' !in line ==> SplitOnce(line) == (line, "")
  {
    var k := SpaceFrom(line, 0);
    SpaceFromSkips(line, 0);
    if k < |line| {
      assert line == line[..k] + [line[k]] + line[k + 1..];
      assert forall m | 0 <= m < k :: line[..k][m] == line[m];
    } else {
      assert forall m | 0 <= m < |line| :: line[m] != ' ';
    }
  }

  /** What a line asks for: nothing, to stop, to send its argument, or something unknown. */
  datatype Command = NoOp | Quit | Send(arg: string) | Invalid(command: string)

  /** The `match` on the upper-cased command word. */
  function Classify(key: string, arg: string): (cmd: Command)
    ensures cmd.NoOp? <==> key == ""
    ensures cmd.Quit? <==> key in {"QUIT", "EXIT"}
    ensures cmd.Send? <==> key in {"WRITE", "PUT"}
    ensures cmd.Send? ==> cmd.arg == arg
  {
    if key == "" then NoOp
    else if key == "QUIT" || key == "EXIT" then Quit
    else if key == "WRITE" || key == "PUT" then Send(arg)
    else Invalid(key)
  }

  /** One input line, trimmed, split, upper-cased and classified. */
  function ParseLine(input: string): Command
  {
    var split := SplitOnce(Trim(input, IsWhitespace));
    Classify(ToUpper(split.0), split.1)
  }

  /** A line is a no-op exactly when it is blank: nothing but whitespace, or nothing at all. */
  lemma NoOpIffBlank(input: string)
    ensures ParseLine(input).NoOp? <==> AllStripped(input, IsWhitespace)
  {
    var line := Trim(input, IsWhitespace);
    TrimSplits(input, IsWhitespace);
    if AllStripped(input, IsWhitespace) {
      TrimUnique(input, [], [], IsWhitespace);
      assert input + [] + [] == input;
    }
    if line == [] {
      var lo := KeptFrom(input, IsWhitespace, 0);
      var hi := KeptTo(input, IsWhitespace, lo, |input|);
      AppendStripped(input[..lo], input[hi..], IsWhitespace);
      assert input == input[..lo] + input[hi..];
    } else {
      // a trimmed line starts with a non-space, so the command word is not empty
      assert line[0] != ' ';
      assert SpaceFrom(line, 0) > 0;
    }
  }

  /** Whitespace around a line changes nothing: the line is trimmed before it is looked at. */
  lemma ParseIgnoresSurroundingWhitespace(pre: string, input: string, post: string)
    requires AllStripped(pre, IsWhitespace) && AllStripped(post, IsWhitespace)
    ensures ParseLine(pre + input + post) == ParseLine(input)
  {
    TrimIgnoresPadding(pre, input, post, IsWhitespace);
  }

  /**
   * A keyword followed by a space and an argument: the argument is everything after the first
   * space, kept exactly (its case and inner spaces included), and only the keyword is upper-cased.
   */
  lemma ParseCommandWithArg(word: string, arg: string)
    requires word != [] && ' ' !in word && !IsWhitespace(word[0])
    requires arg != [] && !IsWhitespace(arg[|arg| - 1])
    ensures ParseLine(word + " " + arg) == Classify(ToUpper(word), arg)
  {
    var line := word + " " + arg;
    assert line[0] == word[0] && line[|line| - 1] == arg[|arg| - 1];
    TrimKeepsUntrimmable(line, IsWhitespace);
    assert line[|word|] == ' ';
    SplitAtFirst(word, arg);
  }

  /** A word without spaces followed by a space splits at that space. */
  lemma SplitAtFirst(word: string, arg: string)
    requires ' ' !in word
    ensures SplitOnce(word + " " + arg) == (word, arg)
  {
    var line := word + " " + arg;
    assert forall m | 0 <= m < |word| :: line[m] == word[m];
    assert line[|word|] == ' ';
    SpaceFromSkips(line, 0);
    assert SpaceFrom(line, 0) == |word|;
    assert line[..|word|] == word && line[|word| + 1..] == arg;
  }

  /** A single word (no space) is the command, with an empty argument. */
  lemma ParseCommandAlone(word: string)
    requires ' ' !in word && Untrimmable(word, IsWhitespace)
    ensures ParseLine(word) == Classify(ToUpper(word), "")
  {
    TrimKeepsUntrimmable(word, IsWhitespace);
    SplitOnceSplits(word);
  }

  // ---------------------------------------------------------------------------------------------
  // The argument's bytes

  /** The UTF-8 encoding of one character. */
  function Utf8Char(c: char): (b: seq<byte>)
    ensures 1 <= |b| <= 4
    ensures |b| == 1 <==> c as int < 0x80
    ensures c as int < 0x80 ==> b == [c as int]
  {
    var n := c as int;
    if n < 0x80 then [n]
    else if n < 0x800 then [0xC0 + n / 0x40, 0x80 + n % 0x40]
    else if n < 0x1_0000 then [0xE0 + n / 0x1000, 0x80 + n / 0x40 % 0x40, 0x80 + n % 0x40]
    else [0xF0 + n / 0x4_0000, 0x80 + n / 0x1000 % 0x40, 0x80 + n / 0x40 % 0x40, 0x80 + n % 0x40]
  }

  /** `str::as_bytes`: the UTF-8 encoding of a string, character after character. */
  function Utf8(s: string): (b: seq<byte>)
    ensures |s| <= |b| <= 4 * |s|
  {
    if s == [] then [] else Utf8(s[..|s| - 1]) + Utf8Char(s[|s| - 1])
  }

  /** An ASCII string is sent as its character codes, one byte each. */
  lemma {:induction false} Utf8Ascii(s: string)
    requires forall i | 0 <= i < |s| :: s[i] as int < 0x80
    ensures |Utf8(s)| == |s|
    ensures forall i | 0 <= i < |s| :: Utf8(s)[i] == s[i] as int
  {
    if s != [] {
      var front := s[..|s| - 1];
      Utf8Ascii(front);
      assert Utf8(s) == Utf8(front) + [s[|s| - 1] as int];
    }
  }
}
