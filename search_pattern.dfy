/** The search escaping of the campground index route (`escapeRegex`) and the
    fragment of the regular-expression language that its output lands in:
    literal characters and `.`, matched case-insensitively anywhere in a name,
    as MongoDB's `$regex` (PCRE) does with the `i` flag. */
module SearchPattern {
  import opened Wrappers
  import opened JsChars

  /** The characters that escapeRegex's character class lists explicitly:
      `- [ ] { } ( ) * + ? . , \ ^ $ | #`. */
  predicate IsListedSpecial(c: char) {
    c == '-' || c == '[' || c == ']' || c == '{' || c == '}' || c == '(' || c == ')'
    || c == '*' || c == '+' || c == '?' || c == '.' || c == ',' || c == '\\'
    || c == '^' || c == '$' || c == '|' || c == '#'
  }

  /** A character that `escapeRegex` prefixes with a backslash. */
  predicate NeedsEscape(c: char) {
    IsListedSpecial(c) || IsJsWhitespace(c)
  }

  /** How many characters of `s` need escaping. */
  function EscapedCount(s: string): nat {
    if s == [] then 0 else (if NeedsEscape(s[0]) then 1 else 0) + EscapedCount(s[1..])
  }

  /** The replacement of one character: `\$&` for a match, the character itself otherwise. */
  function EscapeChar(c: char): string {
    if NeedsEscape(c) then ['\\', c] else [c]
  }

  /** `escapeRegex(text)`: one backslash is added per escaped character. */
  function Escape(s: string): (r: string)
    ensures |r| == |s| + EscapedCount(s)
  {
    if s == [] then [] else EscapeChar(s[0]) + Escape(s[1..])
  }

  /** Each character is replaced on its own and the rest of the text keeps its order. */
  lemma {:induction false} EscapeConcat(a: string, b: string)
    ensures Escape(a + b) == Escape(a) + Escape(b)
  {
    if a == [] {
      assert a + b == b;
    } else {
      assert (a + b)[0] == a[0];
      assert (a + b)[1..] == a[1..] + b;
      EscapeConcat(a[1..], b);
    }
  }

  // ---------------------------------------------------------------------------
  // The pattern language fragment

  /** One position of a pattern: a character compared ignoring case, or `.`. */
  datatype Atom = Literal(c: char) | AnyChar

  predicate IsAsciiAlnum(c: char) {
    'a' <= c <= 'z' || 'A' <= c <= 'Z' || '0' <= c <= '9'
  }

  /** Unescaped characters that start a class, group, repetition, anchor or
      alternation: patterns using them are outside the modelled fragment. */
  predicate IsOperator(c: char) {
    c == '[' || c == ']' || c == '{' || c == '}' || c == '(' || c == ')'
    || c == '*' || c == '+' || c == '?' || c == '^' || c == '$' || c == '|'
  }

  function Prepend(a: Atom, rest: Option<seq<Atom>>): Option<seq<Atom>> {
    match rest
    case None => None
    case Some(atoms) => Some([a] + atoms)
  }

  /** Reads a pattern of the fragment: a backslash before a character that is not
      an ASCII letter or digit makes it literal (PCRE); `.` is any character; every
      other character but the operators stands for itself. None: the pattern is
      outside the fragment (an operator, a letter escape, a trailing backslash). */
  function ParsePattern(p: string): Option<seq<Atom>>
    decreases |p|
  {
    if p == [] then Some([])
    else if p[0] == '\\' then
      if |p| < 2 || IsAsciiAlnum(p[1]) then None
      else Prepend(Literal(p[1]), ParsePattern(p[2..]))
    else if p[0] == '.' then Prepend(AnyChar, ParsePattern(p[1..]))
    else if IsOperator(p[0]) then None
    else Prepend(Literal(p[0]), ParsePattern(p[1..]))
  }

  /** Case folding of the `i` flag, for ASCII letters. */
  function Fold(c: char): char {
    if 'a' <= c <= 'z' then (c as int - 32) as char else c
  }

  /** The route builds the pattern with flags `gi`; the driver sends `g` to the
      server as PCRE's `s`, so `.` matches a line break too. */
  predicate AtomMatches(a: Atom, c: char) {
    match a
    case Literal(l) => Fold(l) == Fold(c)
    case AnyChar => true
  }

  predicate MatchesAt(atoms: seq<Atom>, name: string, i: int) {
    0 <= i && i + |atoms| <= |name|
    && forall k :: 0 <= k < |atoms| ==> AtomMatches(atoms[k], name[i + k])
  }

  /** Whether the regular expression `pattern` (flag `i`) finds a match in `name`;
      None when the pattern is outside the modelled fragment. */
  function RegexTest(pattern: string, name: string): Option<bool> {
    match ParsePattern(pattern)
    case None => None
    case Some(atoms) => Some(exists i | 0 <= i <= |name| - |atoms| :: MatchesAt(atoms, name, i))
  }

  // ---------------------------------------------------------------------------
  // Plain substring search, the reference for what the escaped search does

  predicate OccursAt(text: string, name: string, i: int) {
    0 <= i && i + |text| <= |name|
    && forall k :: 0 <= k < |text| ==> Fold(name[i + k]) == Fold(text[k])
  }

  /** `text` occurs in `name`, ignoring the case of ASCII letters. */
  predicate ContainsIgnoringCase(name: string, text: string) {
    exists i | 0 <= i <= |name| - |text| :: OccursAt(text, name, i)
  }

  function Literals(s: string): seq<Atom> {
    seq(|s|, k requires 0 <= k < |s| => Literal(s[k]))
  }

  /** One escaped character reads back as that character, taken literally. */
  lemma EscapeCharParses(c: char, rest: string)
    ensures ParsePattern(EscapeChar(c) + rest) == Prepend(Literal(c), ParsePattern(rest))
  {
    var p := EscapeChar(c) + rest;
    if NeedsEscape(c) {
      assert p[0] == '\\' && p[1] == c && p[2..] == rest;
      assert !IsAsciiAlnum(c);
    } else {
      assert p[0] == c && p[1..] == rest;
      assert c != '\\' && c != '.' && !IsOperator(c);
    }
  }

  /** The escaped text reads back as the raw text, every character literal:
      no character of the user's text acts as an operator. */
  lemma {:induction false} EscapeParsesAsLiterals(s: string)
    ensures ParsePattern(Escape(s)) == Some(Literals(s))
  {
    if s != [] {
      EscapeParsesAsLiterals(s[1..]);
      EscapeCharParses(s[0], Escape(s[1..]));
      assert Escape(s) == EscapeChar(s[0]) + Escape(s[1..]);
      assert Literals(s) == [Literal(s[0])] + Literals(s[1..]);
      assert Prepend(Literal(s[0]), Some(Literals(s[1..]))) == Some(Literals(s));
    } else {
      assert Literals(s) == [];
    }
  }

  /** The search of the index route is a literal, case-insensitive substring test:
      a name matches the escaped pattern iff the raw text occurs in it. */
  lemma EscapedSearchIsSubstring(s: string, name: string)
    ensures RegexTest(Escape(s), name) == Some(ContainsIgnoringCase(name, s))
  {
    EscapeParsesAsLiterals(s);
    var atoms := Literals(s);
    forall i ensures MatchesAt(atoms, name, i) <==> OccursAt(s, name, i) {
      if 0 <= i && i + |s| <= |name| {
        assert forall k :: 0 <= k < |s| ==> atoms[k] == Literal(s[k]);
      }
    }
  }

  /** Searching "a.b": unescaped, the `.` would match the `x` of "axb creek";
      escaped, only "a.b ranch" matches. */
  lemma DotSearchExample()
    ensures RegexTest("a.b", "axb creek") == Some(true)
    ensures RegexTest(Escape("a.b"), "a.b ranch") == Some(true)
    ensures RegexTest(Escape("a.b"), "axb creek") == Some(false)
  {
    assert "b"[0] == 'b' && "b"[1..] == [];
    assert ".b"[0] == '.' && ".b"[1..] == "b";
    assert "a.b"[0] == 'a' && "a.b"[1..] == ".b";
    var b: seq<Atom> := [Literal('b')];
    var dotB: seq<Atom> := [AnyChar] + b;
    var aDotB: seq<Atom> := [Literal('a')] + dotB;
    var none: seq<Atom> := [];
    assert ParsePattern("b"[1..]) == Some(none);
    assert [Literal('b')] + none == b;
    assert ParsePattern("b") == Some(b);
    assert ParsePattern(".b") == Some(dotB);
    assert ParsePattern("a.b") == Some(aDotB);
    assert aDotB == [Literal('a'), AnyChar, Literal('b')];
    assert MatchesAt([Literal('a'), AnyChar, Literal('b')], "axb creek", 0);
    EscapedSearchIsSubstring("a.b", "a.b ranch");
    assert OccursAt("a.b", "a.b ranch", 0);
    EscapedSearchIsSubstring("a.b", "axb creek");
    var name := "axb creek";
    forall i | 0 <= i <= |name| - 3 ensures !OccursAt("a.b", name, i) {
      assert name[i + 1] != '.';
    }
  }
}
