/**
 * The three validators of the scripted-step engine. Each is a stateless test of
 * a parsed value that answers with a verdict and a message; `Range` alone can
 * raise, when it has to order a string against a number.
 */
module Validators {
  import opened Wrappers
  import opened Text
  import opened Values
  import Numbers

  // ---------------------------------------------------------------------------
  // The regular expressions `Regex` is used with: literals, `.`, `\` escapes and `+`.

  datatype Atom = AnyChar | Literal(c: char)

  datatype Piece = Once(atom: Atom) | OneOrMore(atom: Atom)

  /** `.` matches every character but a newline (no DOTALL flag). */
  predicate AtomMatches(a: Atom, c: char) {
    match a
    case AnyChar => c != '\n'
    case Literal(x) => c == x
  }

  /** `re.fullmatch(p, s)` succeeds: some way of matching `p` consumes all of `s`. */
  predicate FullMatch(p: seq<Piece>, s: string)
    decreases |p| + |s|
  {
    if p == [] then s == []
    else if s == [] then false
    else match p[0]
      case Once(a) => AtomMatches(a, s[0]) && FullMatch(p[1..], s[1..])
      case OneOrMore(a) => AtomMatches(a, s[0]) && (FullMatch(p[1..], s[1..]) || FullMatch(p, s[1..]))
  }

  predicate IsMeta(c: char) {
    c in ".^$*+?{}[]\\|()"
  }

  predicate IsAlnum(c: char) {
    ('a' <= c <= 'z') || ('A' <= c <= 'Z') || ('0' <= c <= '9')
  }

  /**
   * `re.compile(text)` for the supported subset; `None` for a pattern outside it
   * (which Python may accept, or reject with `re.error`).
   */
  function CompilePattern(text: string): (r: Option<seq<Piece>>)
    ensures text == [] ==> r == Some([])
    ensures r.Some? ==> |r.value| <= |text|
    decreases |text|
  {
    if text == [] then Some([])
    else
      var (atom, rest) :=
        if text[0] == '\\' && |text| >= 2 && !IsAlnum(text[1]) then (Some(Literal(text[1])), text[2..])
        else if text[0] == '.' then (Some(AnyChar), text[1..])
        else if IsMeta(text[0]) then (None, [])
        else (Some(Literal(text[0])), text[1..]);
      if atom.None? then None
      else
        var (piece, tail) :=
          if rest != [] && rest[0] == '+' then (OneOrMore(atom.value), rest[1..]) else (Once(atom.value), rest);
        match CompilePattern(tail)
        case None => None
        case Some(ps) => Some([piece] + ps)
  }

  // ---------------------------------------------------------------------------
  // Validators

  datatype Validator =
    | Range(min: Option<Value> := None, max: Option<Value> := None)
    | Regex(pattern: seq<Piece>, message: string := "Invalid format")
    | OneOf(choices: seq<Value>)

  /** `validate`'s `(ok, message)` pair, or the `TypeError` it raises. */
  datatype Outcome = Checked(ok: bool, message: string) | TypeError(message: string)

  const LowerBoundMessage := "Value must be \U{2265} "
  const UpperBoundMessage := "Value must be \U{2264} "
  const ChoicesMessage := "Must be one of: "

  /**
   * `Range.validate`: it raises only when a present bound and the value are not
   * both numbers or both strings, and it passes exactly when the message is empty.
   */
  function RangeValidate(min: Option<Value>, max: Option<Value>, value: Value): (r: Outcome)
    ensures r.TypeError? ==>
      (min.Some? && IsNumber(min.value) != IsNumber(value)) || (max.Some? && IsNumber(max.value) != IsNumber(value))
    ensures r.Checked? ==> (r.ok <==> r.message == "")
  {
    if min.Some? && Less(value, min.value).None? then TypeError(UnorderableMessage("<", value, min.value))
    else if min.Some? && Less(value, min.value).value then Checked(false, LowerBoundMessage + Show(min.value))
    else if max.Some? && Less(max.value, value).None? then TypeError(UnorderableMessage(">", value, max.value))
    else if max.Some? && Less(max.value, value).value then Checked(false, UpperBoundMessage + Show(max.value))
    else Checked(true, "")
  }

  predicate InChoices(value: Value, choices: seq<Value>) {
    exists k :: 0 <= k < |choices| && PyEq(value, choices[k])
  }

  function ShowAll(vs: seq<Value>): (r: seq<string>)
    ensures |r| == |vs| && forall k :: 0 <= k < |vs| ==> r[k] == Show(vs[k])
  {
    seq(|vs|, k requires 0 <= k < |vs| => Show(vs[k]))
  }

  /** `validator.validate(value)` */
  function Validate(v: Validator, value: Value): (r: Outcome)
    ensures r.TypeError? ==> v.Range?
  {
    match v
    case Range(min, max) => RangeValidate(min, max, value)
    case Regex(pattern, message) => Checked(FullMatch(pattern, Show(value)), message)
    case OneOf(choices) => Checked(InChoices(value, choices), ChoicesMessage + Join(", ", ShowAll(choices)))
  }

  // ---------------------------------------------------------------------------
  // Range

  /** On numbers (and numeric bounds) `Range` passes iff the value is within both inclusive bounds. */
  lemma RangeOnNumbers(min: Option<Value>, max: Option<Value>, value: Value)
    requires IsNumber(value)
    requires min.Some? ==> IsNumber(min.value)
    requires max.Some? ==> IsNumber(max.value)
    ensures Validate(Range(min, max), value).Checked?
    ensures Validate(Range(min, max), value).ok <==>
      (min.None? || NumberValue(value) >= NumberValue(min.value)) &&
      (max.None? || NumberValue(value) <= NumberValue(max.value))
  {
  }

  /** The lower bound is checked first: below it, the message names it even when the upper bound fails too. */
  lemma RangeLowerFirst(min: Value, max: Option<Value>, value: Value)
    requires Less(value, min) == Some(true)
    ensures Validate(Range(Some(min), max), value) == Checked(false, LowerBoundMessage + Show(min))
  {
  }

  lemma RangeAboveMax(min: Option<Value>, max: Value, value: Value)
    requires min.Some? ==> Less(value, min.value) == Some(false)
    requires Less(max, value) == Some(true)
    ensures Validate(Range(min, Some(max)), value) == Checked(false, UpperBoundMessage + Show(max))
  {
  }

  /** Without bounds `Range` accepts everything, strings included, and never raises. */
  lemma RangeUnbounded(value: Value)
    ensures Validate(Range(), value) == Checked(true, "")
  {
  }

  /** Within the bounds the answer is the pass verdict with an empty message. */
  lemma RangePassMessage(min: Option<Value>, max: Option<Value>, value: Value)
    ensures Validate(Range(min, max), value).Checked? && Validate(Range(min, max), value).ok ==>
      Validate(Range(min, max), value).message == ""
  {
  }

  /** `Range` raises exactly when a present bound is a number and the value a string, or the other way round. */
  lemma RangeRaises(min: Option<Value>, max: Option<Value>, value: Value)
    requires (min.Some? ==> IsNumber(min.value) == IsNumber(value)) && (max.Some? ==> IsNumber(max.value) == IsNumber(value))
    ensures Validate(Range(min, max), value).Checked?
  {
  }

  // ---------------------------------------------------------------------------
  // Regex

  /** Every character of `s` matches `a`. */
  ghost predicate AllMatch(a: Atom, s: string) {
    forall k :: 0 <= k < |s| ==> AtomMatches(a, s[k])
  }

  /** `a+` followed by `rest` matches `s` iff some non-empty run of `a` is followed by a match of `rest`. */
  lemma OneOrMoreMatch(a: Atom, rest: seq<Piece>, s: string)
    ensures FullMatch([OneOrMore(a)] + rest, s) <==>
      exists k :: 1 <= k <= |s| && AllMatch(a, s[..k]) && FullMatch(rest, s[k..])
  {
    if FullMatch([OneOrMore(a)] + rest, s) {
      var k := OneOrMoreSplit(a, rest, s);
    }
    if exists k :: 1 <= k <= |s| && AllMatch(a, s[..k]) && FullMatch(rest, s[k..]) {
      var k :| 1 <= k <= |s| && AllMatch(a, s[..k]) && FullMatch(rest, s[k..]);
      OneOrMoreThen(a, rest, s, k);
    }
  }

  /** A match of `a+` and `rest` splits into a non-empty run of `a` and a match of `rest`. */
  lemma {:induction false} OneOrMoreSplit(a: Atom, rest: seq<Piece>, s: string) returns (k: int)
    requires FullMatch([OneOrMore(a)] + rest, s)
    ensures 1 <= k <= |s| && AllMatch(a, s[..k]) && FullMatch(rest, s[k..])
    decreases |s|
  {
    var p := [OneOrMore(a)] + rest;
    assert p[1..] == rest;
    if FullMatch(rest, s[1..]) {
      k := 1;
      assert AllMatch(a, s[..1]);
    } else {
      var k' := OneOrMoreSplit(a, rest, s[1..]);
      k := k' + 1;
      assert s[..k] == [s[0]] + s[1..][..k'];
      assert s[k..] == s[1..][k'..];
      assert AllMatch(a, s[..k]);
    }
  }

  /** A non-empty run of `a` followed by a match of `rest` matches `a+` and `rest`. */
  lemma {:induction false} OneOrMoreThen(a: Atom, rest: seq<Piece>, s: string, k: nat)
    requires 1 <= k <= |s| && AllMatch(a, s[..k]) && FullMatch(rest, s[k..])
    ensures FullMatch([OneOrMore(a)] + rest, s)
    decreases k
  {
    var p := [OneOrMore(a)] + rest;
    assert p[1..] == rest;
    assert s[..k][0] == s[0];
    if k == 1 {
      assert s[1..] == s[k..];
    } else {
      assert s[1..][..k - 1] == s[1..k];
      assert AllMatch(a, s[1..][..k - 1]);
      assert s[1..][k - 1..] == s[k..];
      OneOrMoreThen(a, rest, s[1..], k - 1);
    }
  }

  lemma OnceMatch(a: Atom, rest: seq<Piece>, s: string)
    ensures FullMatch([Once(a)] + rest, s) <==> |s| >= 1 && AtomMatches(a, s[0]) && FullMatch(rest, s[1..])
  {
    assert ([Once(a)] + rest)[1..] == rest;
  }

  predicate NoNewline(s: string) {
    forall k :: 0 <= k < |s| ==> s[k] != '\n'
  }

  /** The e-mail pattern `.+@.+\..+`, as compiled. */
  const EmailPattern: seq<Piece> :=
    [OneOrMore(AnyChar), Once(Literal('@')), OneOrMore(AnyChar), Once(Literal('.')), OneOrMore(AnyChar)]

  /** `.+` in front of a pattern compiles to a run of any character in front of its pieces. */
  lemma CompileRun(t: string, ps: seq<Piece>)
    requires CompilePattern(t) == Some(ps)
    ensures CompilePattern(".+" + t) == Some([OneOrMore(AnyChar)] + ps)
  {
    var x := ".+" + t;
    assert x[0] == '.' && x[1..][0] == '+' && x[1..][1..] == t;
  }

  /** A plain character not followed by `+` compiles to that literal, once. */
  lemma CompileLiteral(c: char, t: string, ps: seq<Piece>)
    requires CompilePattern(t) == Some(ps) && c != '\\' && c != '.' && !IsMeta(c) && (t == [] || t[0] != '+')
    ensures CompilePattern([c] + t) == Some([Once(Literal(c))] + ps)
  {
    var x := [c] + t;
    assert x[0] == c && x[1..] == t;
  }

  /** A backslash before a character that is not a letter or digit makes it a literal. */
  lemma CompileEscaped(c: char, t: string, ps: seq<Piece>)
    requires CompilePattern(t) == Some(ps) && !IsAlnum(c) && (t == [] || t[0] != '+')
    ensures CompilePattern(['\\', c] + t) == Some([Once(Literal(c))] + ps)
  {
    var x := ['\\', c] + t;
    assert x[0] == '\\' && x[1] == c && x[2..] == t;
  }

  /** The text of an atom: `.`, a plain character, or a metacharacter behind a backslash. */
  function AtomText(a: Atom): string {
    match a
    case AnyChar => "."
    case Literal(c) => if IsMeta(c) then ['\\', c] else [c]
  }

  function PieceText(p: Piece): string {
    match p
    case Once(a) => AtomText(a)
    case OneOrMore(a) => AtomText(a) + "+"
  }

  /** A pattern written out: each piece's text, in order. */
  function PatternText(ps: seq<Piece>): string {
    if ps == [] then "" else PieceText(ps[0]) + PatternText(ps[1..])
  }

  lemma CompileAtom(a: Atom, t: string, ps: seq<Piece>)
    requires CompilePattern(t) == Some(ps) && (t == [] || t[0] != '+')
    ensures CompilePattern(AtomText(a) + t) == Some([Once(a)] + ps)
  {
    match a
    case AnyChar =>
      var x := "." + t;
      assert x[0] == '.' && x[1..] == t;
    case Literal(c) =>
      if IsMeta(c) {
        assert AtomText(a) == ['\\', c];
        CompileEscaped(c, t, ps);
      } else {
        assert AtomText(a) == [c];
        CompileLiteral(c, t, ps);
      }
  }

  lemma CompileAtomPlus(a: Atom, t: string, ps: seq<Piece>)
    requires CompilePattern(t) == Some(ps)
    ensures CompilePattern(AtomText(a) + "+" + t) == Some([OneOrMore(a)] + ps)
  {
    var x := AtomText(a) + "+" + t;
    match a
    case AnyChar =>
      assert x[0] == '.' && x[1..][0] == '+' && x[1..][1..] == t;
    case Literal(c) =>
      if IsMeta(c) {
        assert x[0] == '\\' && x[1] == c && x[2..][0] == '+' && x[2..][1..] == t;
      } else {
        assert x[0] == c && x[1..][0] == '+' && x[1..][1..] == t;
      }
  }

  /** Every pattern written out compiles back to itself. */
  lemma {:induction false} CompilePatternText(ps: seq<Piece>)
    ensures CompilePattern(PatternText(ps)) == Some(ps)
  {
    if ps != [] {
      var t := PatternText(ps[1..]);
      CompilePatternText(ps[1..]);
      assert t == [] || t[0] != '+' by {
        if ps[1..] != [] {
          assert t[0] == PieceText(ps[1..][0])[0];
        }
      }
      assert [ps[0]] + ps[1..] == ps;
      match ps[0]
      case Once(a) =>
        CompileAtom(a, t, ps[1..]);
      case OneOrMore(a) =>
        CompileAtomPlus(a, t, ps[1..]);
        assert PatternText(ps) == AtomText(a) + "+" + t;
    }
  }

  lemma CompileEmailPattern()
    ensures CompilePattern(".+@.+\\..+") == Some(EmailPattern)
  {
    var run := [OneOrMore(AnyChar)];
    assert CompilePattern([]) == Some([]);
    CompileRun([], []);
    assert ".+" + [] == ".+" && run + [] == run;
    var t3 := ['\\', '.'] + ".+";
    var p3 := [Once(Literal('.'))] + run;
    CompileEscaped('.', ".+", run);
    var t2 := ".+" + t3;
    var p2 := run + p3;
    CompileRun(t3, p3);
    var t1 := ['@'] + t2;
    var p1 := [Once(Literal('@'))] + p2;
    AtIsPlain();
    CompileLiteral('@', t2, p2);
    CompileRun(t1, p1);
    EmailPatternParts(t1, p1);
  }

  lemma AtIsPlain()
    ensures !IsMeta('@')
  {
  }

  /** The e-mail pattern's text and pieces, put together from their parts. */
  lemma EmailPatternParts(t1: string, p1: seq<Piece>)
    requires t1 == ['@'] + (".+" + (['\\', '.'] + ".+"))
    requires p1 == [Once(Literal('@'))] + ([OneOrMore(AnyChar)] + ([Once(Literal('.'))] + [OneOrMore(AnyChar)]))
    ensures ".+" + t1 == ".+@.+\\..+" && [OneOrMore(AnyChar)] + p1 == EmailPattern
  {
  }

  /** `s` is some text, an '@', some text, a '.' and some text, on one line. */
  ghost predicate EmailShaped(s: string) {
    NoNewline(s) && exists i, j :: 1 <= i && i + 2 <= j && j + 2 <= |s| && s[i] == '@' && s[j] == '.'
  }

  lemma AnyRun(s: string)
    ensures AllMatch(AnyChar, s) <==> NoNewline(s)
  {
  }

  /** `.+` followed by `rest`: a non-empty line, then a match of `rest`. */
  lemma RunThen(rest: seq<Piece>, s: string) returns (k: int)
    requires FullMatch([OneOrMore(AnyChar)] + rest, s)
    ensures 1 <= k <= |s| && NoNewline(s[..k]) && FullMatch(rest, s[k..])
  {
    k := OneOrMoreSplit(AnyChar, rest, s);
    AnyRun(s[..k]);
  }

  /** A literal followed by `rest`: that character, then a match of `rest`. */
  lemma LiteralThen(c: char, rest: seq<Piece>, s: string)
    requires FullMatch([Once(Literal(c))] + rest, s)
    ensures |s| >= 1 && s[0] == c && FullMatch(rest, s[1..])
  {
    OnceMatch(Literal(c), rest, s);
  }

  lemma EmailMatchIsShaped(s: string)
    requires FullMatch(EmailPattern, s)
    ensures EmailShaped(s)
  {
    var tail1 := [OneOrMore(AnyChar), Once(Literal('.')), OneOrMore(AnyChar)];
    var tail0 := [Once(Literal('@'))] + tail1;
    assert EmailPattern == [OneOrMore(AnyChar)] + tail0;
    var i := RunThen(tail0, s);
    LiteralThen('@', tail1, s[i..]);
    var s1 := s[i + 1..];
    assert s[i..][1..] == s1;
    var m := DomainSplit(s1);
    var j := i + 1 + m;
    assert s1[m + 1..] == s[j + 1..] && s1[..m] == s[i + 1..j] && s1[m] == s[j];
    NoNewlineAround(s, i, j);
  }

  /** What follows the '@': a line, a '.', and a non-empty line. */
  lemma DomainSplit(t: string) returns (m: int)
    requires FullMatch([OneOrMore(AnyChar), Once(Literal('.')), OneOrMore(AnyChar)], t)
    ensures 1 <= m && m + 2 <= |t| && t[m] == '.' && NoNewline(t[..m]) && NoNewline(t[m + 1..])
  {
    var run := [OneOrMore(AnyChar)];
    var tail2 := [Once(Literal('.'))] + run;
    assert [OneOrMore(AnyChar), Once(Literal('.')), OneOrMore(AnyChar)] == run + tail2;
    m := RunThen(tail2, t);
    LiteralThen('.', run, t[m..]);
    assert t[m..][1..] == t[m + 1..];
    assert run + [] == run;
    var n := RunThen([], t[m + 1..]);
    assert t[m + 1..][..n] == t[m + 1..];
  }

  /** A line cut at two positions that hold no newline is a line when its three parts are. */
  lemma NoNewlineAround(s: string, i: int, j: int)
    requires 0 <= i < j < |s| && s[i] != '\n' && s[j] != '\n'
    requires NoNewline(s[..i]) && NoNewline(s[i + 1..j]) && NoNewline(s[j + 1..])
    ensures NoNewline(s)
  {
    forall k | 0 <= k < |s| ensures s[k] != '\n' {
      if k < i { assert s[k] == s[..i][k]; }
      else if i < k < j { assert s[k] == s[i + 1..j][k - i - 1]; }
      else if j < k { assert s[k] == s[j + 1..][k - j - 1]; }
    }
  }

  lemma OnceThen(a: Atom, rest: seq<Piece>, s: string)
    requires |s| >= 1 && AtomMatches(a, s[0]) && FullMatch(rest, s[1..])
    ensures FullMatch([Once(a)] + rest, s)
  {
    OnceMatch(a, rest, s);
  }

  /** A single line of one or more characters matches `.+`. */
  lemma AnyRunMatch(s: string)
    requires |s| >= 1 && NoNewline(s)
    ensures FullMatch([OneOrMore(AnyChar)], s)
  {
    assert s[..|s|] == s && s[|s|..] == [];
    OneOrMoreThen(AnyChar, [], s, |s|);
    assert [OneOrMore(AnyChar)] + [] == [OneOrMore(AnyChar)];
  }

  lemma ShapedIsEmailMatch(s: string)
    requires EmailShaped(s)
    ensures FullMatch(EmailPattern, s)
  {
    var tail1 := [OneOrMore(AnyChar), Once(Literal('.')), OneOrMore(AnyChar)];
    var tail0 := [Once(Literal('@'))] + tail1;
    assert EmailPattern == [OneOrMore(AnyChar)] + tail0;
    var i, j :| 1 <= i && i + 2 <= j && j + 2 <= |s| && s[i] == '@' && s[j] == '.';
    var s1 := s[i + 1..];
    assert s1[..j - i - 1] == s[i + 1..j] && s1[j - i..] == s[j + 1..] && s1[j - i - 1] == s[j];
    DomainMatch(s1, j - i - 1);
    assert s[i..][1..] == s1;
    OnceThen(Literal('@'), tail1, s[i..]);
    OneOrMoreThen(AnyChar, tail0, s, i);
  }

  /** A line, a '.', and a non-empty line match what follows the '@'. */
  lemma DomainMatch(t: string, m: int)
    requires 1 <= m && m + 2 <= |t| && t[m] == '.' && NoNewline(t[..m]) && NoNewline(t[m + 1..])
    ensures FullMatch([OneOrMore(AnyChar), Once(Literal('.')), OneOrMore(AnyChar)], t)
  {
    var run := [OneOrMore(AnyChar)];
    var tail2 := [Once(Literal('.'))] + run;
    assert [OneOrMore(AnyChar), Once(Literal('.')), OneOrMore(AnyChar)] == run + tail2;
    AnyRunMatch(t[m + 1..]);
    assert t[m..][1..] == t[m + 1..];
    OnceThen(Literal('.'), run, t[m..]);
    OneOrMoreThen(AnyChar, tail2, t, m);
  }

  /** What `re.fullmatch(r".+@.+\..+", s)` accepts, stated without the matcher. */
  lemma EmailFullMatch(s: string)
    ensures FullMatch(EmailPattern, s) <==> EmailShaped(s)
  {
    if FullMatch(EmailPattern, s) { EmailMatchIsShaped(s); }
    if EmailShaped(s) { ShapedIsEmailMatch(s); }
  }

  /** The boundary cases of the e-mail rule: "a@b.co" passes, "a@b" and "" fail. */
  lemma EmailExamples()
    ensures FullMatch(EmailPattern, "a@b.co")
    ensures !FullMatch(EmailPattern, "a@b")
    ensures !FullMatch(EmailPattern, "")
  {
    ShapedAt("a@b.co", 1, 3);
    EmailFullMatch("a@b");
  }

  /** A line with an '@' at `i` and a '.' at `j`, each with text around it, matches. */
  lemma ShapedAt(s: string, i: int, j: int)
    requires NoNewline(s) && 1 <= i && i + 2 <= j && j + 2 <= |s| && s[i] == '@' && s[j] == '.'
    ensures FullMatch(EmailPattern, s)
  {
    ShapedIsEmailMatch(s);
  }

  /** Text with a newline in it does not match. */
  lemma NotOneLine(s: string, k: int)
    requires 0 <= k < |s| && s[k] == '\n'
    ensures !FullMatch(EmailPattern, s)
  {
    EmailFullMatch(s);
  }

  /**
   * The e-mail step's `Regex`: a reply passes iff it is some text, an '@', some
   * text, a '.' and some text, all on one line; the message is the default one.
   */
  lemma EmailRegexVerdict(s: string)
    ensures Validate(Regex(EmailPattern), StrV(s)).Checked?
    ensures Validate(Regex(EmailPattern), StrV(s)).ok <==> EmailShaped(s)
    ensures Validate(Regex(EmailPattern), StrV(s)).message == "Invalid format"
  {
    EmailFullMatch(s);
  }

  /** A prefix or a substring that matches is not enough: text after the match fails `Regex`. */
  lemma RegexNotPrefix()
    ensures FullMatch(EmailPattern, "a@b.c")
    ensures !FullMatch(EmailPattern, "a@b.c\nxyz")
  {
    ShapedAt("a@b.c", 1, 3);
    NotOneLine("a@b.c\nxyz", 5);
  }

  // ---------------------------------------------------------------------------
  // OneOf

  /** When the value and every choice have one type, `OneOf` passes iff the value is one of the choices. */
  lemma OneOfSameType(choices: seq<Value>, value: Value)
    requires forall k :: 0 <= k < |choices| ==> TypeOf(choices[k]) == TypeOf(value)
    ensures Validate(OneOf(choices), value).ok <==> value in choices
  {
    forall k | 0 <= k < |choices| ensures PyEq(value, choices[k]) <==> value == choices[k] {
      SameTypeEq(value, choices[k]);
    }
  }

  /** A refusal lists the choices as `str` shows them, separated by ", ". */
  lemma OneOfRefusal()
    ensures Validate(OneOf([StrV("red"), IntV(2)]), StrV("blue")) == Checked(false, "Must be one of: red, 2")
  {
    assert !PyEq(StrV("blue"), StrV("red")) by { assert "blue"[0] != "red"[0]; }
    assert !PyEq(StrV("blue"), IntV(2));
    assert ShowAll([StrV("red"), IntV(2)]) == ["red", "2"] by {
      assert Numbers.IntToString(2) == Numbers.NatToString(2) == [Numbers.DigitChar(2)];
    }
  }

  /** `True in [1, 2]` holds in Python, and so it does here. */
  lemma OneOfBoolIsInt()
    ensures Validate(OneOf([IntV(1), IntV(2)]), BoolV(true)).ok
    ensures !Validate(OneOf([StrV("1")]), IntV(1)).ok
  {
    assert PyEq(BoolV(true), [IntV(1), IntV(2)][0]);
  }
}
