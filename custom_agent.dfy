/**
 * The custom agent's text handling: splitting a model response into its
 * "Thought:" part, its code and what follows; the scripted answers `input`
 * gives inside executed code; and the tool descriptions put into the prompt.
 *
 * The two regular-expression searches of `extract_response_parts` are
 * modelled the way the engine runs them: start positions from left to
 * right, and at each one the alternatives, greedy runs and lazy groups tried
 * in the engine's order. All patterns are compiled with `re.DOTALL`, so a
 * lazy group may span any characters, newlines included.
 */
module CustomAgent {
  import opened Wrappers
  import opened Text

  /** The greedy `\s*` from `i`: where the run of whitespace ends. */
  function SpaceEnd(s: string, i: nat): (m: nat)
    requires i <= |s|
    ensures i <= m <= |s| && (forall k :: i <= k < m ==> IsSpace(s[k])) && (m < |s| ==> !IsSpace(s[m]))
    decreases |s| - i
  {
    if i == |s| || !IsSpace(s[i]) then i else SpaceEnd(s, i + 1)
  }

  // ---------------------------------------------------------------------------
  // Thought: `Thought:(.*?)(?=Code:|$)`

  /** The look-ahead `(?=Code:|$)` holds at `e`; `$` is the end or just before a final newline. */
  predicate ThoughtStopAt(s: string, e: int) {
    OccursAt(s, "Code:", e) || e == |s| || (0 <= e && e == |s| - 1 && s[e] == '\n')
  }

  /** The lazy group from `e`: the first position at which the look-ahead holds. */
  function ThoughtStop(s: string, e: nat): (r: nat)
    requires e <= |s|
    ensures e <= r <= |s| && ThoughtStopAt(s, r)
    ensures forall k :: e <= k < r ==> !ThoughtStopAt(s, k)
    decreases |s| - e
  {
    if ThoughtStopAt(s, e) then e else ThoughtStop(s, e + 1)
  }

  /**
   * The span of group 1. The look-ahead holds at the end of the text at the
   * latest, so a match starts wherever "Thought:" occurs and the leftmost
   * match starts at its first occurrence.
   */
  function ThoughtGroup(s: string): (r: Option<(nat, nat)>)
    ensures r.Some? ==> r.value.0 <= r.value.1 <= |s|
  {
    match Find(s, "Thought:", 0)
    case None => None
    case Some(i) => Some((i + 8, ThoughtStop(s, i + 8)))
  }

  /** `thought_match.group(1).strip() if thought_match else ""` */
  function Thought(s: string): (thought: string)
    ensures thought != [] ==> !IsSpace(thought[0]) && !IsSpace(thought[|thought| - 1])
    ensures Find(s, "Thought:", 0).None? ==> thought == ""
  {
    match ThoughtGroup(s)
    case None => ""
    case Some((a, b)) => Strip(s[a..b])
  }

  /**
   * The thought is the text after the first "Thought:" up to the next
   * "Code:", or to the end when no "Code:" follows, stripped.
   */
  lemma ThoughtSpec(s: string, i: nat)
    requires Find(s, "Thought:", 0) == Some(i)
    ensures i + 8 <= |s|
    ensures Find(s, "Code:", i + 8).Some? ==> Thought(s) == Strip(s[i + 8..Find(s, "Code:", i + 8).value])
    ensures Find(s, "Code:", i + 8).None? ==> Thought(s) == Strip(s[i + 8..])
  {
    var a := i + 8;
    var r := ThoughtStop(s, a);
    assert Thought(s) == Strip(s[a..r]);
    if Find(s, "Code:", a).Some? {
      StopAtNextCode(s, a);
    } else {
      StopAtEnd(s, a);
      StripToFinalSpace(s, a, r);
    }
  }

  /** The lazy group stops at the next "Code:" when there is one... */
  lemma StopAtNextCode(s: string, a: nat)
    requires a <= |s| && Find(s, "Code:", a).Some?
    ensures ThoughtStop(s, a) == Find(s, "Code:", a).value
  {
    var r := ThoughtStop(s, a);
    var j := Find(s, "Code:", a).value;
    assert ThoughtStopAt(s, j);
    assert r <= j;
    if OccursAt(s, "Code:", r) {
      assert !(r < j);
    }
  }

  /** ...and otherwise at the end, or just before a final newline. */
  lemma StopAtEnd(s: string, a: nat)
    requires a <= |s| && Find(s, "Code:", a).None?
    ensures var r := ThoughtStop(s, a); r == |s| || (r == |s| - 1 && s[r] == '\n' && IsSpace(s[r]))
  {
    var r := ThoughtStop(s, a);
    assert !OccursAt(s, "Code:", r);
  }

  /** Cutting a final whitespace character off makes no difference to `strip`. */
  lemma StripToFinalSpace(s: string, a: nat, r: nat)
    requires a <= r <= |s|
    requires r < |s| ==> r + 1 == |s| && IsSpace(s[r])
    ensures Strip(s[a..r]) == Strip(s[a..])
  {
    if r == |s| {
      assert s[a..r] == s[a..];
    } else {
      StripFinalSpace(s, a);
    }
  }

  // ---------------------------------------------------------------------------
  // Code: the primary pattern
  //   Code:(?:\s*```(?:py|python)?\s*)?(.*?)(?:\s*```|/End code|\nEnd code)
  // and the fallback ````(?:py|python)?\s*(.*?)(?:\s*```)`

  datatype Pattern = Primary | Fallback

  /** The literal each pattern starts with. */
  function Opener(pat: Pattern): string {
    match pat
    case Primary => "Code:"
    case Fallback => "```"
  }

  /**
   * Where `\s*```` ends when it matches at `e`. Giving back whitespace from
   * the greedy run cannot help, since a '`' is not whitespace.
   */
  function FenceEnd(s: string, e: nat): (r: Option<nat>)
    requires e <= |s|
    ensures r.Some? ==> e <= r.value <= |s|
  {
    var m := SpaceEnd(s, e);
    if OccursAt(s, "```", m) then Some(m + 3) else None
  }

  /** Where the pattern's closing group ends when it matches at `e`, its alternatives tried in order. */
  function StopEnd(pat: Pattern, s: string, e: nat): (r: Option<nat>)
    requires e <= |s|
    ensures r.Some? ==> e <= r.value <= |s|
  {
    var fence := FenceEnd(s, e);
    if fence.Some? || pat.Fallback? then fence
    else if OccursAt(s, "/End code", e) then Some(e + 9)
    else if OccursAt(s, "\nEnd code", e) then Some(e + 9)
    else None
  }

  /** The lazy `(.*?)` from `c`: the first end at which the closing group matches, and where that leaves the match. */
  function LazyGroup(pat: Pattern, s: string, c: nat): (r: Option<(nat, nat)>)
    requires c <= |s|
    ensures r.Some? ==> c <= r.value.0 <= r.value.1 <= |s| && StopEnd(pat, s, r.value.0) == Some(r.value.1)
    ensures r.Some? ==> forall k :: c <= k < r.value.0 ==> StopEnd(pat, s, k).None?
    ensures r.None? ==> forall k :: c <= k <= |s| ==> StopEnd(pat, s, k).None?
    decreases |s| - c
  {
    if StopEnd(pat, s, c).Some? then Some((c, StopEnd(pat, s, c).value))
    else if c == |s| then None
    else LazyGroup(pat, s, c + 1)
  }

  /** `hi, hi - 1, …, lo`: the lengths a greedy run tries, longest first. */
  function Descending(lo: nat, hi: nat): (r: seq<nat>)
    requires lo <= hi
    ensures |r| == hi - lo + 1 && forall k :: 0 <= k < |r| ==> r[k] == hi - k
    decreases hi - lo
  {
    if hi == lo then [lo] else [hi] + Descending(lo, hi - 1)
  }

  /**
   * The starts of the code group after an opening fence that ends at `f`, in
   * the order `(?:py|python)?\s*` offers them: "py" first (so "python" leaves
   * "thon" behind), then "python", then no language at all.
   */
  function AfterFence(s: string, f: nat): (r: seq<nat>)
    requires f <= |s|
    ensures r != [] && r[|r| - 1] == f
    ensures forall k :: 0 <= k < |r| ==> f <= r[k] <= |s|
  {
    (if OccursAt(s, "py", f) then Descending(f + 2, SpaceEnd(s, f + 2)) else []) +
    (if OccursAt(s, "python", f) then Descending(f + 6, SpaceEnd(s, f + 6)) else []) +
    Descending(f, SpaceEnd(s, f))
  }

  /**
   * The starts of the code group for a match at `p`, in the order they are
   * tried. For the primary pattern the optional fence group is tried before
   * skipping it, so the group right after "Code:" comes last.
   */
  function GroupStarts(pat: Pattern, s: string, p: nat): (r: seq<nat>)
    requires p + |Opener(pat)| <= |s|
    ensures r != [] && r[|r| - 1] == p + |Opener(pat)|
    ensures forall k :: 0 <= k < |r| ==> p + |Opener(pat)| <= r[k] <= |s|
  {
    match pat
    case Primary => PrimaryStarts(s, p)
    case Fallback => AfterFence(s, p + 3)
  }

  /** For the primary pattern: the starts after an opening fence, if one follows "Code:", then the one right after it. */
  function PrimaryStarts(s: string, p: nat): (r: seq<nat>)
    requires p + 5 <= |s|
    ensures r != [] && r[|r| - 1] == p + 5
    ensures forall k :: 0 <= k < |r| ==> p + 5 <= r[k] <= |s|
  {
    var m := SpaceEnd(s, p + 5);
    if m + 3 <= |s| && OccursAt(s, "```", m) then AfterFence(s, m + 3) + [p + 5] else [p + 5]
  }

  /** The first start with which the rest of the pattern matches: (group start, group end, match end). */
  function FirstStart(pat: Pattern, s: string, starts: seq<nat>): (r: Option<(nat, nat, nat)>)
    requires forall k :: 0 <= k < |starts| ==> starts[k] <= |s|
    ensures r.Some? ==> r.value.0 in starts && r.value.0 <= |s| && LazyGroup(pat, s, r.value.0) == Some((r.value.1, r.value.2))
    ensures r.None? ==> forall k :: 0 <= k < |starts| ==> LazyGroup(pat, s, starts[k]).None?
  {
    if starts == [] then None
    else match LazyGroup(pat, s, starts[0])
      case Some((e, stop)) => Some((starts[0], e, stop))
      case None => FirstStart(pat, s, starts[1..])
  }

  /** A match: where it starts, the span of group 1, and where it ends (`match.end()`). */
  datatype Match = Match(start: nat, lo: nat, hi: nat, stop: nat)

  /** `m` is a match of `pat` in `s` whose group 1 is as short as the lazy group makes it. */
  ghost predicate MatchOk(pat: Pattern, s: string, m: Match) {
    OccursAt(s, Opener(pat), m.start) && m.start + |Opener(pat)| <= m.lo <= m.hi <= m.stop <= |s| &&
    StopEnd(pat, s, m.hi) == Some(m.stop) &&
    forall k :: m.lo <= k < m.hi ==> StopEnd(pat, s, k).None?
  }

  /** The match that starts at `p`, if one does. */
  function MatchAt(pat: Pattern, s: string, p: nat): (r: Option<Match>)
    requires p <= |s|
    ensures r.Some? ==> r.value.start == p && MatchOk(pat, s, r.value)
  {
    if OccursAt(s, Opener(pat), p) then
      match FirstStart(pat, s, GroupStarts(pat, s, p))
      case None => None
      case Some((c, e, stop)) => Some(Match(p, c, e, stop))
    else None
  }

  /** The match attempt at every start position, `0` to `|s|`. */
  function Attempts(pat: Pattern, s: string): (ms: seq<Option<Match>>)
    ensures |ms| == |s| + 1 && forall p :: 0 <= p <= |s| ==> ms[p] == MatchAt(pat, s, p)
  {
    seq(|s| + 1, p requires 0 <= p <= |s| => MatchAt(pat, s, p))
  }

  /** The first position at or after `from` whose attempt succeeds. */
  function FirstSuccess(ms: seq<Option<Match>>, from: nat): (r: Option<nat>)
    requires from <= |ms|
    ensures r.Some? ==> from <= r.value < |ms| && ms[r.value].Some?
    ensures r.Some? ==> forall q :: from <= q < r.value ==> ms[q].None?
    ensures r.None? ==> forall q :: from <= q < |ms| ==> ms[q].None?
    decreases |ms| - from
  {
    if from == |ms| then None
    else if ms[from].Some? then Some(from)
    else FirstSuccess(ms, from + 1)
  }

  /** `re.search(pattern, s, re.DOTALL)`: the match at the leftmost start where one starts. */
  function Search(pat: Pattern, s: string): (r: Option<Match>)
    ensures r.Some? ==> r.value.start <= |s| && MatchAt(pat, s, r.value.start) == r
    ensures r.Some? ==> forall p :: 0 <= p < r.value.start ==> MatchAt(pat, s, p).None?
    ensures r.None? ==> forall p :: 0 <= p <= |s| ==> MatchAt(pat, s, p).None?
  {
    var ms := Attempts(pat, s);
    match FirstSuccess(ms, 0)
    case None => None
    case Some(p) => ms[p]
  }

  /** The code match: the primary pattern, and the fallback only when the primary finds nothing. */
  function CodeMatch(s: string): (r: Option<Match>)
    ensures r.Some? ==> r.value.lo <= r.value.hi <= r.value.stop <= |s|
  {
    var primary := Search(Primary, s);
    if primary.Some? then primary else Search(Fallback, s)
  }

  /** The repair of a leading "thon", the rest of "python" when the fence matched only "py". */
  function DropThon(code: string): (r: string)
    ensures Trimmed(code) ==> Trimmed(r)
  {
    if StartsWith(code, "thon") then Strip(code[4..]) else code
  }

  /** What `extract_response_parts` returns. */
  datatype Parts = Parts(thought: string, code: string, remainder: string)

  /**
   * `extract_response_parts(response)`: the thought and the code come out
   * stripped; so does the remainder whenever code was found, and without code
   * the remainder is the whole response.
   */
  function ExtractResponseParts(response: string): (r: Parts)
    ensures Trimmed(r.thought) && Trimmed(r.code)
    ensures CodeMatch(response).Some? ==> Trimmed(r.remainder)
    ensures CodeMatch(response).Some? ==> r.remainder == Strip(response[CodeMatch(response).value.stop..])
    ensures CodeMatch(response).None? ==> r.code == "" && r.remainder == response
  {
    PartsFrom(response, CodeMatch(response))
  }

  /** The parts, given the code match. */
  function PartsFrom(response: string, code: Option<Match>): (r: Parts)
    requires code.Some? ==> code.value.lo <= code.value.hi <= code.value.stop <= |response|
    ensures Trimmed(r.thought) && Trimmed(r.code)
    ensures code.Some? ==> Trimmed(r.remainder)
    ensures code.None? ==> r.code == "" && r.remainder == response
  {
    var thought := Thought(response);
    match code
    case None => Parts(thought, "", response)
    case Some(m) => Parts(thought, DropThon(Strip(response[m.lo..m.hi])), Strip(response[m.stop..]))
  }

  // ---------------------------------------------------------------------------
  // What the searches find

  /** A match starts at `p` iff the opener is there and the closing group matches somewhere after it. */
  lemma MatchAtIff(pat: Pattern, s: string, p: nat)
    requires p <= |s|
    ensures MatchAt(pat, s, p).Some? <==>
      OccursAt(s, Opener(pat), p) && exists e :: p + |Opener(pat)| <= e <= |s| && StopEnd(pat, s, e).Some?
  {
    if OccursAt(s, Opener(pat), p) && MatchAt(pat, s, p).None? {
      var starts := GroupStarts(pat, s, p);
      assert LazyGroup(pat, s, starts[|starts| - 1]).None?;
    }
    if MatchAt(pat, s, p).Some? {
      var m := MatchAt(pat, s, p).value;
      assert StopEnd(pat, s, m.hi).Some?;
    }
  }

  /** Some text closes a block somewhere after an occurrence of the opener. */
  ghost predicate Closable(pat: Pattern, s: string) {
    exists p, e :: OccursAt(s, Opener(pat), p) && p + |Opener(pat)| <= e <= |s| && StopEnd(pat, s, e).Some?
  }

  /**
   * A pattern matches iff some occurrence of its opener is followed by a
   * closing group, and then the match starts at the FIRST occurrence of the
   * opener: if the first one cannot be closed, no later one can.
   */
  lemma SearchSpec(pat: Pattern, s: string)
    ensures Search(pat, s).Some? <==> Closable(pat, s)
    ensures Search(pat, s).Some? ==> Find(s, Opener(pat), 0) == Some(Search(pat, s).value.start)
  {
    var r := Search(pat, s);
    if r.Some? {
      FirstMatchAtFirstOpener(pat, s, r.value.start);
    } else {
      NoMatchNotClosable(pat, s);
    }
  }

  /** The leftmost start with a match is the first occurrence of the opener. */
  lemma FirstMatchAtFirstOpener(pat: Pattern, s: string, q: nat)
    requires q <= |s| && MatchAt(pat, s, q).Some?
    requires forall p :: 0 <= p < q ==> MatchAt(pat, s, p).None?
    ensures Closable(pat, s) && Find(s, Opener(pat), 0) == Some(q)
  {
    var e := MatchCloses(pat, s, q);
    var p0 := FirstOpener(pat, s, q);
    NoEarlierOpener(pat, s, p0, q, e);
  }

  /** An earlier opener would be closed by the same closing group, and so would have matched. */
  lemma NoEarlierOpener(pat: Pattern, s: string, p0: nat, q: nat, e: nat)
    requires p0 <= q && OccursAt(s, Opener(pat), p0)
    requires q + |Opener(pat)| <= e <= |s| && StopEnd(pat, s, e).Some?
    requires forall p :: 0 <= p < q ==> MatchAt(pat, s, p).None?
    ensures p0 == q
  {
    ClosingMatches(pat, s, p0, e);
  }

  /** A match at `p` has the opener there and a closing group after it. */
  lemma MatchCloses(pat: Pattern, s: string, p: nat) returns (e: nat)
    requires p <= |s| && MatchAt(pat, s, p).Some?
    ensures OccursAt(s, Opener(pat), p) && p + |Opener(pat)| <= e <= |s| && StopEnd(pat, s, e).Some?
  {
    e := MatchAt(pat, s, p).value.hi;
  }

  /** The opener at `p` and a closing group after it make a match at `p`. */
  lemma ClosingMatches(pat: Pattern, s: string, p: nat, e: nat)
    requires OccursAt(s, Opener(pat), p) && p + |Opener(pat)| <= e <= |s| && StopEnd(pat, s, e).Some?
    ensures MatchAt(pat, s, p).Some?
  {
    MatchAtIff(pat, s, p);
  }

  /** An occurrence of the opener at `q` means `find` finds one at `q` or before. */
  lemma FirstOpener(pat: Pattern, s: string, q: nat) returns (p0: nat)
    requires OccursAt(s, Opener(pat), q)
    ensures Find(s, Opener(pat), 0) == Some(p0) && p0 <= q && OccursAt(s, Opener(pat), p0)
  {
    p0 := Find(s, Opener(pat), 0).value;
  }

  /** When no start has a match, nothing can be closed. */
  lemma NoMatchNotClosable(pat: Pattern, s: string)
    requires forall p :: 0 <= p <= |s| ==> MatchAt(pat, s, p).None?
    ensures !Closable(pat, s)
  {
    if Closable(pat, s) {
      var p, e :| OccursAt(s, Opener(pat), p) && p + |Opener(pat)| <= e <= |s| && StopEnd(pat, s, e).Some?;
      MatchAtIff(pat, s, p);
      assert false;
    }
  }

  /**
   * The fallback is consulted only when no "Code:" can be closed; otherwise
   * the code comes from the primary pattern, after the first "Code:".
   */
  lemma CodeSource(s: string)
    ensures Closable(Primary, s) ==>
      (CodeMatch(s) == Search(Primary, s) && CodeMatch(s).Some? &&
       Find(s, "Code:", 0) == Some(CodeMatch(s).value.start))
    ensures !Closable(Primary, s) ==> CodeMatch(s) == Search(Fallback, s)
    ensures CodeMatch(s).None? <==> !Closable(Primary, s) && !Closable(Fallback, s)
  {
    SearchSpec(Primary, s);
    SearchSpec(Fallback, s);
  }

  /** The code group is as short as possible: no closing group matches inside it. */
  lemma CodeGroupLazy(s: string)
    requires CodeMatch(s).Some?
    ensures var m := CodeMatch(s).value;
      (forall k :: m.lo <= k < m.hi ==> StopEnd(Primary, s, k).None?) ||
      (forall k :: m.lo <= k < m.hi ==> StopEnd(Fallback, s, k).None?)
  {
  }

  /** Without "Code:" and without a fence there is no code, and the remainder is the whole response. */
  lemma NoCodeMarkers(s: string)
    requires Find(s, "Code:", 0).None? && Find(s, "```", 0).None?
    ensures ExtractResponseParts(s).code == "" && ExtractResponseParts(s).remainder == s
  {
    CodeSource(s);
  }

  // ---------------------------------------------------------------------------
  // A fenced code block in the usual layout

  /**
   * Code text that nothing inside can close: no '`', no '/', no line that
   * starts with "End code", and no whitespace at either end.
   */
  ghost predicate PlainCode(x: string) {
    x != [] && !IsSpace(x[0]) && !IsSpace(x[|x| - 1]) &&
    (forall k :: 0 <= k < |x| ==> x[k] != '`' && x[k] != '/') &&
    !Contains("\n" + x, "\nEnd code")
  }

  /** Nothing closes the group `g` between `pre` and a closing "\n```" before that newline. */
  lemma NothingClosesInside(pat: Pattern, s: string, pre: string, g: string)
    requires s == pre + g + "\n```"
    requires g != [] && !IsSpace(g[|g| - 1]) && forall k :: 0 <= k < |g| ==> g[k] != '`' && g[k] != '/'
    requires !Contains(g, "\nEnd code")
    ensures forall k :: |pre| <= k < |pre| + |g| ==> StopEnd(pat, s, k).None?
  {
    forall k | |pre| <= k < |pre| + |g| ensures StopEnd(pat, s, k).None? {
      NoStopInside(pat, s, pre, g, k);
    }
  }

  /** The closing "\n```" at the end of the text closes the group right before it. */
  lemma ClosingFence(pat: Pattern, s: string, body: string)
    requires s == body + "\n```"
    ensures StopEnd(pat, s, |body|) == Some(|s|)
  {
    var e := |body|;
    assert s[e] == '\n' && s[e + 1..e + 4] == "```";
    assert SpaceEnd(s, e + 1) == e + 1;
    assert FenceEnd(s, e) == Some(|s|);
  }

  lemma NoStopInside(pat: Pattern, s: string, pre: string, g: string, k: int)
    requires s == pre + g + "\n```"
    requires g != [] && !IsSpace(g[|g| - 1]) && forall k :: 0 <= k < |g| ==> g[k] != '`' && g[k] != '/'
    requires !Contains(g, "\nEnd code")
    requires |pre| <= k < |pre| + |g|
    ensures StopEnd(pat, s, k).None?
  {
    NoFenceInside(s, pre, g, k);
    NoEndCodeInside(s, pre, g, k);
  }

  /** Inside the group, `\s*```` cannot match: the whitespace run stops inside `g`, which holds no '`'. */
  lemma NoFenceInside(s: string, pre: string, g: string, k: int)
    requires s == pre + g + "\n```"
    requires g != [] && !IsSpace(g[|g| - 1]) && forall k :: 0 <= k < |g| ==> g[k] != '`'
    requires |pre| <= k < |pre| + |g|
    ensures FenceEnd(s, k).None?
  {
    var last := |pre| + |g| - 1;
    assert s[last] == g[|g| - 1];
    var m := SpaceEnd(s, k);
    assert m <= last;
    assert s[m] == g[m - |pre|];
  }

  /** Inside the group, neither "/End code" nor "\nEnd code" starts. */
  lemma NoEndCodeInside(s: string, pre: string, g: string, k: int)
    requires s == pre + g + "\n```"
    requires forall k :: 0 <= k < |g| ==> g[k] != '/'
    requires !Contains(g, "\nEnd code")
    requires |pre| <= k < |pre| + |g|
    ensures !OccursAt(s, "/End code", k) && !OccursAt(s, "\nEnd code", k)
  {
    assert s[k] == g[k - |pre|];
    var last := |pre| + |g| - 1;
    if k + 9 <= last + 1 {
      OccursWithin(pre, g, "\n```", "\nEnd code", k);
    } else {
      EndCodeAcrossClose(s, pre, g, k);
    }
  }

  /** "\nEnd code" cannot run into the closing "\n```": its only newline is its first character. */
  lemma EndCodeAcrossClose(s: string, pre: string, g: string, k: int)
    requires s == pre + g + "\n```"
    requires |pre| <= k < |pre| + |g| < k + 9
    ensures !OccursAt(s, "\nEnd code", k)
  {
    var last := |pre| + |g| - 1;
    assert s[last + 1] == '\n' && "\nEnd code"[last + 1 - k] != '\n';
  }

  lemma MiddleSlice(pre: string, g: string, post: string)
    ensures (pre + g + post)[|pre|..|pre| + |g|] == g
  {
  }


  /** An occurrence that lies inside the middle part is an occurrence in that part. */
  lemma OccursWithin(pre: string, g: string, post: string, t: string, k: int)
    requires |pre| <= k && k + |t| <= |pre| + |g|
    ensures OccursAt(pre + g + post, t, k) ==> OccursAt(g, t, k - |pre|)
  {
    assert (pre + g + post)[k..k + |t|] == g[k - |pre|..k - |pre| + |t|];
  }

  /** The lazy group from `c` ends at `e` when nothing closes it before. */
  lemma {:induction false} LazyGroupAt(pat: Pattern, s: string, c: nat, e: nat)
    requires c <= e <= |s| && StopEnd(pat, s, e).Some?
    requires forall k :: c <= k < e ==> StopEnd(pat, s, k).None?
    ensures LazyGroup(pat, s, c) == Some((e, StopEnd(pat, s, e).value))
    decreases e - c
  {
    if c < e {
      LazyGroupAt(pat, s, c + 1, e);
    }
  }

  /** Nothing in "thon\n" + x starts a line "End code" when nothing in "\n" + x does. */
  lemma ThonPrefixPlain(x: string)
    requires PlainCode(x)
    ensures !Contains("thon\n" + x, "\nEnd code")
  {
    var h := "\n" + x;
    var g := "thon\n" + x;
    assert g == "thon" + h;
    forall i ensures !OccursAt(g, "\nEnd code", i) {
      if 0 <= i < 4 {
        OccursFirst(g, "\nEnd code", i);
        assert g[i] != '\n';
      } else if i >= 4 {
        OccursAfter("thon", h, "\nEnd code", i - 4);
        assert !OccursAt(h, "\nEnd code", i - 4);
      }
    }
  }

  lemma OccursFirst(s: string, t: string, i: int)
    requires t != []
    ensures OccursAt(s, t, i) ==> s[i] == t[0]
  {
    if OccursAt(s, t, i) {
      assert s[i..i + |t|][0] == s[i];
    }
  }

  /** An occurrence behind a prefix is an occurrence in what follows the prefix. */
  lemma OccursAfter(head: string, rest: string, t: string, o: int)
    requires 0 <= o
    ensures OccursAt(head + rest, t, |head| + o) ==> OccursAt(rest, t, o)
  {
    if OccursAt(head + rest, t, |head| + o) {
      assert (head + rest)[|head| + o..|head| + o + |t|] == rest[o..o + |t|];
    }
  }

  /**
   * The "thon" repair at work: a block opened with "```python" yields its
   * code exactly, and nothing remains after the closing fence.
   */
  lemma PythonFence(x: string)
    requires PlainCode(x)
    ensures ExtractResponseParts("Code:\n```python\n" + x + "\n```").code == x
    ensures ExtractResponseParts("Code:\n```python\n" + x + "\n```").remainder == ""
  {
    var s := "Code:\n```python\n" + x + "\n```";
    PythonFenceMatch(s, x);
    ThonRepair(x);
    StripPadded("", "", "");
  }

  /** Where the primary pattern matches in a "```python" block. */
  lemma PythonFenceMatch(s: string, x: string)
    requires PlainCode(x) && s == "Code:\n```python\n" + x + "\n```"
    ensures CodeMatch(s) == Some(Match(0, 11, 11 + |"thon\n" + x|, |s|))
    ensures s[11..11 + |"thon\n" + x|] == "thon\n" + x
  {
    var pre := "Code:\n```py";
    var g := "thon\n" + x;
    assert s == pre + g + "\n```";
    MiddleSlice(pre, g, "\n```");
    ThonGroup(x, g);
    FenceBlockMatch(s, pre, g);
  }

  /** The group "thon\n" + x holds nothing that closes it early. */
  lemma ThonGroup(x: string, g: string)
    requires PlainCode(x) && g == "thon\n" + x
    ensures g != [] && g[0] == 't' && !IsSpace(g[|g| - 1]) && !Contains(g, "\nEnd code")
    ensures forall k :: 0 <= k < |g| ==> g[k] != '`' && g[k] != '/'
  {
    ThonPrefixPlain(x);
    assert g[|g| - 1] == x[|x| - 1];
    assert forall k :: 5 <= k < |g| ==> g[k] == x[k - 5];
  }

  /** A block opened by "Code:\n```py" and closed by "\n```", with group `g` in between. */
  lemma FenceBlockMatch(s: string, pre: string, g: string)
    requires pre == "Code:\n```py" && s == pre + g + "\n```"
    requires g != [] && g[0] == 't' && !IsSpace(g[|g| - 1]) && !Contains(g, "\nEnd code")
    requires forall k :: 0 <= k < |g| ==> g[k] != '`' && g[k] != '/'
    ensures CodeMatch(s) == Some(Match(0, 11, 11 + |g|, |s|))
  {
    NothingClosesInside(Primary, s, pre, g);
    ClosingFence(Primary, s, pre + g);
    LazyGroupAt(Primary, s, |pre|, |pre| + |g|);
    assert s == pre + (g + "\n```");
    PythonFenceOpening(s, g + "\n```");
    MatchAtFirstStart(Primary, s, 0, 11, 11 + |g|, |s|);
    SearchAtZero(s, Match(0, 11, 11 + |g|, |s|));
  }

  /** When the first group start tried lets the lazy group close, that is the match. */
  lemma MatchAtFirstStart(pat: Pattern, s: string, p: nat, c: nat, e: nat, stop: nat)
    requires p + |Opener(pat)| <= |s| && OccursAt(s, Opener(pat), p)
    requires GroupStarts(pat, s, p)[0] == c && LazyGroup(pat, s, c) == Some((e, stop))
    ensures MatchAt(pat, s, p) == Some(Match(p, c, e, stop))
  {
  }

  /** A primary match at the very start is the code match. */
  lemma SearchAtZero(s: string, m: Match)
    requires MatchAt(Primary, s, 0) == Some(m)
    ensures CodeMatch(s) == Some(m)
  {
    assert Attempts(Primary, s)[0] == Some(m);
  }

  /** The opening "Code:\n```python": the group is tried first right after "```py". */
  lemma PythonFenceOpening(s: string, t: string)
    requires s == "Code:\n```py" + t && t != [] && t[0] == 't'
    ensures OccursAt(s, "Code:", 0) && GroupStarts(Primary, s, 0)[0] == 11
  {
    assert s[..5] == "Code:" && s[5] == '\n' && s[6..9] == "```" && s[9..11] == "py" && s[11] == 't';
    assert SpaceEnd(s, 6) == 6;
    assert SpaceEnd(s, 5) == 6;
    assert SpaceEnd(s, 11) == 11;
    assert OccursAt(s, "```", 6) && OccursAt(s, "py", 9);
  }

  /** Stripping "thon\n" + x and repairing the "thon" gives back `x`. */
  lemma ThonRepair(x: string)
    requires x != [] && !IsSpace(x[0]) && !IsSpace(x[|x| - 1])
    ensures DropThon(Strip("thon\n" + x)) == x
  {
    var g := "thon\n" + x;
    assert g[0] == 't' && g[|g| - 1] == x[|x| - 1];
    StripUnpadded(g);
    ThonTail(g, x);
    StripLeadingSpace('\n', x);
  }

  lemma ThonTail(g: string, x: string)
    requires g == "thon\n" + x
    ensures StartsWith(g, "thon") && g[4..] == ['\n'] + x
  {
    assert g == "thon" + (['\n'] + x);
  }

  // ---------------------------------------------------------------------------
  // mock_input

  const AttendeesAnswer := "John, Sarah, Michael"
  const DateAnswer := "2024-11-02"
  const TimeAnswer := "14:00"
  const TopicAnswer := "Q2 marketing strategy"
  const DefaultAnswer := "Default mock response"

  /** `mock_input(prompt)`: the answer for the first keyword the lower-cased prompt contains. */
  function MockInput(prompt: string): (answer: string)
    ensures var p := Lower(prompt);
      (answer == AttendeesAnswer <==> Contains(p, "attendees")) &&
      (answer == DateAnswer <==> !Contains(p, "attendees") && Contains(p, "date")) &&
      (answer == TimeAnswer <==> !Contains(p, "attendees") && !Contains(p, "date") && Contains(p, "time")) &&
      (answer == TopicAnswer <==>
        !Contains(p, "attendees") && !Contains(p, "date") && !Contains(p, "time") && Contains(p, "topic")) &&
      (answer == DefaultAnswer <==>
        !Contains(p, "attendees") && !Contains(p, "date") && !Contains(p, "time") && !Contains(p, "topic"))
  {
    var p := Lower(prompt);
    if Contains(p, "attendees") then AttendeesAnswer
    else if Contains(p, "date") then DateAnswer
    else if Contains(p, "time") then TimeAnswer
    else if Contains(p, "topic") then TopicAnswer
    else DefaultAnswer
  }

  /** On an ASCII prompt, the answer does not depend on the letter case of the prompt. */
  lemma MockInputIgnoresCase(prompt: string)
    requires IsAscii(prompt)
    ensures MockInput(Upper(prompt)) == MockInput(prompt)
  {
    LowerOfUpper(prompt);
  }

  /** Text added around a keyword cannot change the answer to one for a later keyword. */
  lemma MockInputKeyword(pre: string, post: string)
    ensures MockInput(pre + "attendees" + post) == AttendeesAnswer
    ensures MockInput(pre + "Date" + post) in {AttendeesAnswer, DateAnswer}
  {
    var a := pre + "attendees" + post;
    assert Lower(a)[|pre|..|pre| + 9] == "attendees";
    assert OccursAt(Lower(a), "attendees", |pre|);
    var d := pre + "Date" + post;
    assert Lower(d)[|pre|..|pre| + 4] == "date";
    assert OccursAt(Lower(d), "date", |pre|);
  }

  // ---------------------------------------------------------------------------
  // get_tool_descriptions

  /** One entry of a tool's `parameters.properties`, in the dictionary's order. */
  datatype Param = Param(name: string, description: string, ty: string)

  /** A tool schema: `required` is `None` when the key is missing. */
  datatype Tool = Tool(name: string, description: string, properties: seq<Param>, required: Option<seq<string>>)

  function Label(p: Param, required: seq<string>): string {
    if p.name in required then "Required" else "Optional"
  }

  /** The description line of one parameter. */
  function ParamLine(p: Param, required: seq<string>): string {
    "- " + p.name + ": " + p.description + " (" + Label(p, required) + ", Type: " + p.ty + ")\n"
  }

  /** Where the label sits in a parameter's line. */
  function LabelOffset(p: Param): nat {
    |"- " + p.name + ": " + p.description + " ("|
  }

  function Header(t: Tool): string {
    "Tool: " + t.name + "\n" + "Description: " + t.description + "\n" + "Parameters:\n"
  }

  function ParamLines(ps: seq<Param>, required: seq<string>): (lines: seq<string>)
    ensures |lines| == |ps| && forall k :: 0 <= k < |ps| ==> lines[k] == ParamLine(ps[k], required)
  {
    seq(|ps|, k requires 0 <= k < |ps| => ParamLine(ps[k], required))
  }

  /** A tool's block: its header, then one line per parameter. */
  function ToolBlock(t: Tool): string {
    Header(t) + Join("", ParamLines(t.properties, t.required.GetOr([])))
  }

  function ToolBlocks(tools: seq<Tool>): (blocks: seq<string>)
    ensures |blocks| == |tools| && forall k :: 0 <= k < |tools| ==> blocks[k] == ToolBlock(tools[k])
  {
    seq(|tools|, k requires 0 <= k < |tools| => ToolBlock(tools[k]))
  }

  /** The text `get_tool_descriptions` builds. */
  function ToolDescriptions(tools: seq<Tool>): (r: string)
    ensures tools == [] ==> r == ""
    ensures |tools| == 1 ==> r == ToolBlock(tools[0])
  {
    Join("\n", ToolBlocks(tools))
  }

  /** `get_tool_descriptions()`, over the agent's tool list. */
  method GetToolDescriptions(tools: seq<Tool>) returns (text: string)
    ensures text == ToolDescriptions(tools)
  {
    var descriptions: seq<string> := [];
    for i := 0 to |tools|
      invariant descriptions == ToolBlocks(tools[..i])
    {
      var tool := tools[i];
      var required := tool.required.GetOr([]);
      var desc := "Tool: " + tool.name + "\n";
      desc := desc + "Description: " + tool.description + "\n";
      desc := desc + "Parameters:\n";
      assert desc == Header(tool);
      assert Join("", ParamLines(tool.properties[..0], required)) == "";
      for j := 0 to |tool.properties|
        invariant desc == Header(tool) + Join("", ParamLines(tool.properties[..j], required))
      {
        var p := tool.properties[j];
        var tag := if p.name in required then "Required" else "Optional";
        var line := "- " + p.name + ": " + p.description + " (" + tag + ", Type: " + p.ty + ")\n";
        assert line == ParamLine(p, required);
        ParamLinesSnoc(Header(tool), tool.properties, j, required);
        desc := desc + line;
      }
      ToolBlocksSnoc(tools, i);
      descriptions := descriptions + [desc];
    }
    assert tools[..|tools|] == tools;
    text := Join("\n", descriptions);
  }

  lemma ToolBlocksSnoc(tools: seq<Tool>, i: nat)
    requires i < |tools|
    ensures tools[i].properties[..|tools[i].properties|] == tools[i].properties
    ensures ToolBlocks(tools[..i + 1]) == ToolBlocks(tools[..i]) + [ToolBlock(tools[i])]
  {
  }

  lemma ParamLinesSnoc(header: string, ps: seq<Param>, j: nat, required: seq<string>)
    requires j < |ps|
    ensures header + Join("", ParamLines(ps[..j + 1], required)) ==
      header + Join("", ParamLines(ps[..j], required)) + ParamLine(ps[j], required)
  {
    assert ParamLines(ps[..j + 1], required) == ParamLines(ps[..j], required) + [ParamLine(ps[j], required)];
    JoinSnoc("", ParamLines(ps[..j], required), ParamLine(ps[j], required));
  }

  /** A parameter's line carries "Required" iff the parameter is listed as required, and "Optional" otherwise. */
  lemma LabelIff(p: Param, required: seq<string>)
    ensures OccursAt(ParamLine(p, required), "Required", LabelOffset(p)) <==> p.name in required
    ensures OccursAt(ParamLine(p, required), "Optional", LabelOffset(p)) <==> p.name !in required
  {
    var line := ParamLine(p, required);
    var o := LabelOffset(p);
    assert line[o..o + 8] == Label(p, required);
  }

  /**
   * Every tool's block appears in the text in list order, with one "\n"
   * between neighbouring blocks and nothing after the last.
   */
  lemma ToolBlockPlaced(tools: seq<Tool>, i: nat)
    requires i < |tools|
    ensures OccursAt(ToolDescriptions(tools), ToolBlocks(tools)[i], JoinOffset("\n", ToolBlocks(tools), i))
    ensures i + 1 < |tools| ==>
      OccursAt(ToolDescriptions(tools), "\n", JoinOffset("\n", ToolBlocks(tools), i) + |ToolBlocks(tools)[i]|)
    ensures i + 1 == |tools| ==>
      |ToolDescriptions(tools)| == JoinOffset("\n", ToolBlocks(tools), i) + |ToolBlocks(tools)[i]|
  {
    JoinParts("\n", ToolBlocks(tools), i);
  }

  /** Within a block, after the header, every parameter's line appears in the order of the properties. */
  lemma ParamLinePlaced(t: Tool, k: nat)
    requires k < |t.properties|
    ensures var lines := ParamLines(t.properties, t.required.GetOr([]));
      OccursAt(ToolBlock(t), lines[k], |Header(t)| + JoinOffset("", lines, k))
  {
    BehindHeader(Header(t), ParamLines(t.properties, t.required.GetOr([])), k);
  }

  /** Each line of a block sits behind the header, at its place in the joined lines. */
  lemma BehindHeader(header: string, lines: seq<string>, k: nat)
    requires k < |lines|
    ensures OccursAt(header + Join("", lines), lines[k], |header| + JoinOffset("", lines, k))
  {
    JoinParts("", lines, k);
    OccursBehind(header, Join("", lines), lines[k], JoinOffset("", lines, k));
  }

  /** A tool schema without a `required` key marks every parameter optional. */
  lemma NoRequiredKey(t: Tool, k: nat)
    requires t.required.None? && k < |t.properties|
    ensures Label(t.properties[k], t.required.GetOr([])) == "Optional"
  {
  }

  const ScheduleMeeting := Tool(
    "schedule_meeting",
    "Schedules a meeting with specified attendees at a given time and date.",
    [Param("attendees", "List of people attending the meeting.", "array"),
     Param("date", "Date of the meeting (e.g., '2024-07-29')", "string"),
     Param("time", "Time of the meeting (e.g., '15:00')", "string"),
     Param("topic", "The subject or topic of the meeting.", "string")],
    Some(["attendees", "date", "time", "topic"]))

  const FinalAnswer := Tool(
    "final_answer",
    "Use this to provide the final answer to the user's question.",
    [Param("answer", "The final answer to provide to the user.", "string")],
    Some(["answer"]))

  /** `create_tools()` */
  const AgentTools := [ScheduleMeeting, FinalAnswer]

  /** Every parameter of the agent's two tools is described as required. */
  lemma AgentToolsAllRequired(i: nat, k: nat)
    requires i < |AgentTools| && k < |AgentTools[i].properties|
    ensures Label(AgentTools[i].properties[k], AgentTools[i].required.GetOr([])) == "Required"
  {
  }
}
