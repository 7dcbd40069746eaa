/**
 * The Google-Docs agent's two pieces of local logic: the routing test in
 * `chat`, and the list of `insertText` requests that `_insert_conversation`
 * builds to write the conversation into a new document.
 *
 * To say what the requests do, the document body is modelled the way the
 * Docs API addresses it: as UTF-16 code units, the first at index 1. An
 * `insertText` request at index `i` puts its text before the unit at `i`.
 */
module GoogleDocs {
  import opened Wrappers
  import opened Text

  // ---------------------------------------------------------------------------
  // Routing in `chat`

  const SavePhrase := "save conversation as document"

  datatype Route = SaveConversation | Delegate

  /** `chat(message)`: the save tool when the trimmed, lower-cased message is the phrase, else the agent. */
  function ChatRoute(message: string): (r: Route)
    ensures r == SaveConversation <==> Lower(Strip(message)) == SavePhrase
  {
    if Lower(Strip(message)) == SavePhrase then SaveConversation else Delegate
  }

  /** Surrounding whitespace and letter case do not matter: any such spelling of the phrase saves. */
  lemma SaveIgnoresPaddingAndCase(pre: string, core: string, post: string)
    requires AllSpace(pre) && AllSpace(post) && Lower(core) == SavePhrase
    ensures ChatRoute(pre + core + post) == SaveConversation
  {
    assert LowerChar(core[0]) == 's' && LowerChar(core[|core| - 1]) == 't';
    StripPadded(pre, core, post);
  }

  /** And nothing else saves: a saving message is the phrase, in some letter case, between whitespace. */
  lemma SaveOnlyForPhrase(message: string)
    requires ChatRoute(message) == SaveConversation
    ensures exists i :: StrippedAt(message, Strip(message), i) && Lower(Strip(message)) == SavePhrase
  {
  }

  lemma RouteSaveExample()
    ensures ChatRoute("  " + "Save Conversation As Document" + "\n") == SaveConversation
  {
    CapitalisedPhrase();
    assert AllSpace("  ") && AllSpace("\n");
    SaveIgnoresPaddingAndCase("  ", "Save Conversation As Document", "\n");
  }

  lemma CapitalisedPhrase()
    ensures Lower("Save Conversation As Document") == SavePhrase
  {
    var core := "Save Conversation As Document";
    assert forall k :: 0 <= k < |core| ==> LowerChar(core[k]) == SavePhrase[k];
  }

  /** A shorter message cannot be the phrase. */
  lemma RouteShortExample()
    ensures ChatRoute("save conversation") == Delegate
  {
    assert |Lower(Strip("save conversation"))| <= |"save conversation"| < |SavePhrase|;
  }

  /** Stripping removes whitespace only, so words around the phrase keep it from matching. */
  lemma RouteWordyExample()
    ensures ChatRoute("please save conversation as document") == Delegate
  {
    var long := "please save conversation as document";
    assert !IsSpace(long[0]) && !IsSpace(long[|long| - 1]);
    StripPadded("", long, "");
    assert "" + long + "" == long;
    assert |Lower(long)| != |SavePhrase|;
  }

  // ---------------------------------------------------------------------------
  // The conversation and its requests

  datatype Message = Message(role: string, content: string)

  /** `{"insertText": {"location": {"index": index}, "text": text}}` */
  datatype Request = InsertText(index: int, text: string)

  /** `f"{msg['role'].upper()}: {msg['content']}\n"` */
  function EntryText(m: Message): (t: string)
    ensures |t| == |m.role| + |m.content| + 3 && t[|t| - 1] == '\n'
  {
    Upper(m.role) + ": " + m.content + "\n"
  }

  /** The whole conversation as the document should read. */
  function Transcript(ms: seq<Message>): (r: string)
    ensures ms == [] <==> r == ""
    ensures ms != [] ==> r[|r| - 1] == '\n'
    decreases |ms|
  {
    if ms == [] then "" else Transcript(ms[..|ms| - 1]) + EntryText(ms[|ms| - 1])
  }

  lemma TranscriptStep(ms: seq<Message>, i: int)
    requires 0 <= i < |ms|
    ensures Transcript(ms[..i + 1]) == Transcript(ms[..i]) + EntryText(ms[i])
  {
    assert ms[..i + 1][..i] == ms[..i];
  }

  /**
   * The requests as `_insert_conversation` computes them: one per message,
   * each at 1 plus the number of code points written before it.
   */
  function CodePointRequests(ms: seq<Message>): (rs: seq<Request>)
    ensures |rs| == |ms|
  {
    seq(|ms|, k requires 0 <= k < |ms| => InsertText(1 + |Transcript(ms[..k])|, EntryText(ms[k])))
  }

  /** `_insert_conversation`'s loop, without the `batchUpdate` call that sends its result. */
  method InsertRequests(messages: seq<Message>) returns (requests: seq<Request>)
    ensures requests == CodePointRequests(messages)
  {
    requests := [];
    var index := 1;
    for i := 0 to |messages|
      invariant |requests| == i
      invariant forall k :: 0 <= k < i ==> requests[k] == CodePointRequests(messages)[k]
      invariant index == 1 + |Transcript(messages[..i])|
    {
      var text := EntryText(messages[i]);
      assert InsertText(index, text) == CodePointRequests(messages)[i];
      requests := requests + [InsertText(index, text)];
      TranscriptStep(messages, i);
      assert |Transcript(messages[..i + 1])| == |Transcript(messages[..i])| + |text|;
      index := index + |text|;
    }
  }

  /**
   * One request per message, in message order, with that message's line as
   * its text; the first at index 1, each later one at the previous index plus
   * the previous text's length.
   */
  lemma CodePointRequestsShape(ms: seq<Message>)
    ensures |CodePointRequests(ms)| == |ms|
    ensures forall k :: 0 <= k < |ms| ==> CodePointRequests(ms)[k].text == EntryText(ms[k])
    ensures |ms| > 0 ==> CodePointRequests(ms)[0].index == 1
    ensures forall k :: 0 <= k < |ms| - 1 ==>
      CodePointRequests(ms)[k + 1].index == CodePointRequests(ms)[k].index + |CodePointRequests(ms)[k].text|
  {
    forall k | 0 <= k < |ms| - 1
      ensures CodePointRequests(ms)[k + 1].index == CodePointRequests(ms)[k].index + |CodePointRequests(ms)[k].text|
    {
      TranscriptStep(ms, k);
    }
    if |ms| > 0 {
      assert ms[..0] == [];
    }
  }

  /** No messages, no requests. */
  lemma NoMessagesNoRequests()
    ensures CodePointRequests([]) == []
  {
  }

  // ---------------------------------------------------------------------------
  // The document, in UTF-16 code units

  function Units(c: char): (u: seq<int>)
    ensures |u| == if c as int < 0x1_0000 then 1 else 2
  {
    if c as int < 0x1_0000 then [c as int]
    else
      var v := c as int - 0x1_0000;
      [0xD800 + v / 0x400, 0xDC00 + v % 0x400]
  }

  /** The UTF-16 encoding of a string. */
  function Utf16(s: string): seq<int>
    decreases |s|
  {
    if s == [] then [] else Units(s[0]) + Utf16(s[1..])
  }

  lemma {:induction false} Utf16Concat(a: string, b: string)
    ensures Utf16(a + b) == Utf16(a) + Utf16(b)
  {
    if a == [] {
      assert a + b == b;
    } else {
      assert (a + b)[0] == a[0] && (a + b)[1..] == a[1..] + b;
      Utf16Concat(a[1..], b);
    }
  }

  /** Every code point of `s` fits in one UTF-16 unit. */
  predicate InBmp(s: string) {
    forall k :: 0 <= k < |s| ==> s[k] as int < 0x1_0000
  }

  lemma {:induction false} Utf16LengthInBmp(s: string)
    requires InBmp(s)
    ensures |Utf16(s)| == |s|
  {
    if s != [] {
      assert InBmp(s[1..]) by { assert forall k :: 0 <= k < |s[1..]| ==> s[1..][k] == s[k + 1]; }
      Utf16LengthInBmp(s[1..]);
    }
  }

  /** One `insertText` request: its text goes in before the unit at its index; an index past the end fails. */
  function ApplyInsert(doc: seq<int>, r: Request): Option<seq<int>> {
    var at := r.index - 1;
    if 0 <= at <= |doc| then Some(doc[..at] + Utf16(r.text) + doc[at..]) else None
  }

  /** A `batchUpdate`: the requests in order, stopping at the first that fails. */
  function ApplyAll(doc: seq<int>, rs: seq<Request>): Option<seq<int>>
    decreases |rs|
  {
    if rs == [] then Some(doc)
    else match ApplyInsert(doc, rs[0])
      case None => None
      case Some(d) => ApplyAll(d, rs[1..])
  }

  /** The requests with each index counted in UTF-16 units, as the Docs API counts them. */
  function Utf16Requests(ms: seq<Message>): (rs: seq<Request>)
    ensures |rs| == |ms|
  {
    seq(|ms|, k requires 0 <= k < |ms| => InsertText(1 + |Utf16(Transcript(ms[..k]))|, EntryText(ms[k])))
  }

  lemma {:induction false} Utf16RequestsFrom(ms: seq<Message>, i: int)
    requires 0 <= i <= |ms|
    ensures ApplyAll(Utf16(Transcript(ms[..i])), Utf16Requests(ms)[i..]) == Some(Utf16(Transcript(ms)))
    decreases |ms| - i
  {
    var rs := Utf16Requests(ms);
    if i == |ms| {
      assert ms[..i] == ms;
      assert rs[i..] == [];
    } else {
      var doc := Utf16(Transcript(ms[..i]));
      assert rs[i..][0] == rs[i] == InsertText(1 + |doc|, EntryText(ms[i]));
      assert doc[..|doc|] == doc && doc[|doc|..] == [];
      assert doc[..|doc|] + Utf16(EntryText(ms[i])) + doc[|doc|..] == doc + Utf16(EntryText(ms[i]));
      assert ApplyInsert(doc, rs[i]) == Some(doc + Utf16(EntryText(ms[i])));
      TranscriptStep(ms, i);
      Utf16Concat(Transcript(ms[..i]), EntryText(ms[i]));
      assert rs[i..][1..] == rs[i + 1..];
      Utf16RequestsFrom(ms, i + 1);
    }
  }

  /** Counting in UTF-16 units, the requests write the conversation in order. */
  lemma Utf16RequestsWriteTranscript(ms: seq<Message>)
    ensures ApplyAll([], Utf16Requests(ms)) == Some(Utf16(Transcript(ms)))
  {
    Utf16RequestsFrom(ms, 0);
    assert ms[..0] == [];
    assert Utf16Requests(ms)[0..] == Utf16Requests(ms);
  }

  /** When every code point fits in one unit, the requests as written are the correct ones. */
  lemma CodePointRequestsInBmp(ms: seq<Message>)
    requires InBmp(Transcript(ms))
    ensures CodePointRequests(ms) == Utf16Requests(ms)
  {
    forall k | 0 <= k < |ms| ensures |Utf16(Transcript(ms[..k]))| == |Transcript(ms[..k])| {
      PrefixTranscript(ms, k);
      var t := Transcript(ms[..k]);
      var rest := Transcript(ms)[|t|..];
      assert InBmp(t) by { assert forall j :: 0 <= j < |t| ==> t[j] == Transcript(ms)[j]; }
      Utf16LengthInBmp(t);
    }
  }

  /** The transcript of a prefix is a prefix of the transcript. */
  lemma {:induction false} PrefixTranscript(ms: seq<Message>, k: int)
    requires 0 <= k <= |ms|
    ensures |Transcript(ms[..k])| <= |Transcript(ms)| && Transcript(ms)[..|Transcript(ms[..k])|] == Transcript(ms[..k])
    decreases |ms| - k
  {
    if k == |ms| {
      assert ms[..k] == ms;
    } else {
      PrefixTranscript(ms, k + 1);
      TranscriptStep(ms, k);
      var a := Transcript(ms[..k]);
      var b := Transcript(ms[..k + 1]);
      assert b[..|a|] == a;
    }
  }

  /** A message whose content is one emoji outside the basic plane, then a second message. */
  const EmojiConversation := [Message("user", "\U{1F389}"), Message("user", "a")]

  /** The two lines of that conversation, and the requests built for it. */
  lemma EmojiRequests()
    ensures Transcript(EmojiConversation) == EntryText(EmojiConversation[0]) + EntryText(EmojiConversation[1])
    ensures CodePointRequests(EmojiConversation) ==
      [InsertText(1, EntryText(EmojiConversation[0])), InsertText(9, EntryText(EmojiConversation[1]))]
  {
    var ms := EmojiConversation;
    assert ms[..0] == [] && ms[..1] == [ms[0]] && ms[..2] == ms;
    assert Transcript([ms[0]]) == EntryText(ms[0]) by { assert [ms[0]][..0] == []; }
    assert |EntryText(ms[0])| == 8;
  }

  /** The first line is 9 units long, its emoji taking two, and ends in a newline. */
  lemma EmojiLineUnits()
    ensures |Utf16(EntryText(EmojiConversation[0]))| == 9
    ensures Utf16(EntryText(EmojiConversation[0]))[8] == '\n' as int
  {
    var head := Upper("user") + ": ";
    assert EntryText(EmojiConversation[0]) == head + "\U{1F389}" + "\n";
    assert InBmp(head);
    Utf16LengthInBmp(head);
    Utf16Concat(head + "\U{1F389}", "\n");
    Utf16Concat(head, "\U{1F389}");
    assert Utf16("\U{1F389}") == Units('\U{1F389}');
    assert Utf16("\n") == ['\n' as int];
  }

  lemma EmojiSecondLineStart()
    ensures Utf16(EntryText(EmojiConversation[1]))[0] == 'U' as int
  {
    var t := EntryText(EmojiConversation[1]);
    assert t[0] == 'U';
  }

  /** Two requests on an empty document: the first text, then the second inserted at its index. */
  lemma ApplyTwo(a: string, n: int, b: string)
    requires 1 <= n <= |Utf16(a)| + 1
    ensures ApplyAll([], [InsertText(1, a), InsertText(n, b)]) ==
      Some(Utf16(a)[..n - 1] + Utf16(b) + Utf16(a)[n - 1..])
  {
    var rs := [InsertText(1, a), InsertText(n, b)];
    var empty: seq<int> := [];
    var ua := Utf16(a);
    assert empty[..0] + ua + empty[0..] == ua;
    assert ApplyInsert(empty, rs[0]) == Some(ua);
    var d := ua[..n - 1] + Utf16(b) + ua[n - 1..];
    assert ApplyInsert(ua, rs[1]) == Some(d);
    assert rs[1..] == [rs[1]] && rs[1..][1..] == [];
    assert ApplyAll(d, []) == Some(d);
    assert ApplyAll(ua, rs[1..]) == Some(d);
  }

  /**
   * With that conversation, counting code points puts the second message
   * before the first message's newline: unit 8 of the result is 'U' where
   * the transcript has '\n'.
   */
  lemma CodePointIndexMisplaces()
    ensures ApplyAll([], CodePointRequests(EmojiConversation)).Some?
    ensures ApplyAll([], CodePointRequests(EmojiConversation)) != Some(Utf16(Transcript(EmojiConversation)))
  {
    var t0 := EntryText(EmojiConversation[0]);
    var t1 := EntryText(EmojiConversation[1]);
    EmojiRequests();
    EmojiLineUnits();
    EmojiSecondLineStart();
    ApplyTwo(t0, 9, t1);
    var d := Utf16(t0)[..8] + Utf16(t1) + Utf16(t0)[8..];
    assert d[8] == 'U' as int;
    Utf16Concat(t0, t1);
    assert Utf16(t0 + t1)[8] == '\n' as int;
  }
}
