/**
 * The values the conversation manager of main.py works with, and the pure
 * parts of its operations: the keyword filter of `delete_specific_entry`,
 * the history window and prompt of `get_context_prompt`, the reply clean-up
 * of `generate_response`, and what loading and saving do to the storage file.
 */
module Conversation {
  import opened Text

  // ---------------------------------------------------------------------------
  // Messages and the storage file
  // ---------------------------------------------------------------------------

  datatype Role = User | Assistant

  /** The ISO-8601 text of `datetime.now()`, chosen by the caller; nothing
      orders successive timestamps. */
  type Timestamp = string

  /** One record of the log: `{role, content, timestamp}`. */
  datatype Message = Message(role: Role, content: string, timestamp: Timestamp)

  /** What the storage file holds: nothing, a log that reads back as a list of
      messages, or text that does not parse. */
  datatype Storage = Absent | Log(entries: seq<Message>) | Unreadable

  /** How one full rewrite of the storage file ends: written completely;
      `open` failed and the file is untouched; or the file was opened for
      writing (and so emptied) but the dump failed part-way. */
  datatype SaveOutcome = Written | OpenFailed | WriteFailed

  /** The history `_load_history` leaves, given the history before it: an
      absent file keeps it, an unreadable one empties it. */
  function Load(disk: Storage, current: seq<Message>): seq<Message> {
    match disk
    case Absent => current
    case Log(entries) => entries
    case Unreadable => []
  }

  /** The storage file after `_save_history` writes `h`; a failed write never
      reports an error to the caller. */
  function Save(disk: Storage, h: seq<Message>, outcome: SaveOutcome): (d: Storage)
    ensures outcome == Written ==> forall current :: Load(d, current) == h
    ensures outcome == OpenFailed ==> d == disk
    ensures outcome == WriteFailed ==> forall current :: Load(d, current) == []
  {
    match outcome
    case Written => Log(h)
    case OpenFailed => disk
    case WriteFailed => Unreadable
  }

  // ---------------------------------------------------------------------------
  // delete_specific_entry: the keyword filter
  // ---------------------------------------------------------------------------

  /** `keyword.lower() in msg['content'].lower()`. */
  predicate Matches(m: Message, keyword: string) {
    Contains(LowerStr(m.content), LowerStr(keyword))
  }

  /** The list comprehension of `delete_specific_entry`: the messages that do
      not match the keyword, in their original order. */
  function KeepUnmatched(h: seq<Message>, keyword: string): (r: seq<Message>)
    ensures |r| <= |h|
    ensures forall i :: 0 <= i < |r| ==> !Matches(r[i], keyword)
  {
    if h == [] then []
    else if Matches(h[0], keyword) then KeepUnmatched(h[1..], keyword)
    else [h[0]] + KeepUnmatched(h[1..], keyword)
  }

  /** `a` is `b` with some elements left out. */
  ghost predicate IsSubsequence<T>(a: seq<T>, b: seq<T>)
    decreases |b|
  {
    if a == [] then true
    else if b == [] then false
    else (a[0] == b[0] && IsSubsequence(a[1..], b[1..])) || IsSubsequence(a, b[1..])
  }

  /** The filter keeps every non-matching message as often as it occurs and
      drops every matching one. */
  lemma {:induction false} KeepUnmatchedCounts(h: seq<Message>, keyword: string, m: Message)
    ensures multiset(KeepUnmatched(h, keyword))[m]
            == if Matches(m, keyword) then 0 else multiset(h)[m]
  {
    if h != [] {
      KeepUnmatchedCounts(h[1..], keyword, m);
      assert h == [h[0]] + h[1..];
    }
  }

  /** A message whose content holds the keyword verbatim is deleted, in
      whatever case the keyword is written, under the character-wise `Lower`
      of this model. */
  lemma VerbatimDeleted(h: seq<Message>, keyword: string, m: Message)
    requires Contains(m.content, keyword) || Contains(LowerStr(m.content), LowerStr(keyword))
    ensures m !in KeepUnmatched(h, keyword)
  {
    if Contains(m.content, keyword) {
      LowerContains(m.content, keyword);
    }
    KeepUnmatchedCounts(h, keyword, m);
  }

  /** The survivors appear in the order they had. */
  lemma {:induction false} KeepUnmatchedOrder(h: seq<Message>, keyword: string)
    ensures IsSubsequence(KeepUnmatched(h, keyword), h)
  {
    if h != [] {
      KeepUnmatchedOrder(h[1..], keyword);
      var rest := KeepUnmatched(h[1..], keyword);
      if Matches(h[0], keyword) {
        SubsequenceDropHead(rest, h);
      } else {
        assert ([h[0]] + rest)[1..] == rest;
      }
    }
  }

  lemma SubsequenceDropHead<T>(a: seq<T>, b: seq<T>)
    requires b != [] && IsSubsequence(a, b[1..])
    ensures IsSubsequence(a, b)
  {
  }

  /** A log with no matching message is left as it is. */
  lemma {:induction false} KeepUnmatchedNone(h: seq<Message>, keyword: string)
    requires forall i :: 0 <= i < |h| ==> !Matches(h[i], keyword)
    ensures KeepUnmatched(h, keyword) == h
  {
    if h != [] {
      KeepUnmatchedNone(h[1..], keyword);
      assert h == [h[0]] + h[1..];
    }
  }

  /** Deleting by the same keyword a second time removes nothing more. */
  lemma KeepUnmatchedIdempotent(h: seq<Message>, keyword: string)
    ensures KeepUnmatched(KeepUnmatched(h, keyword), keyword) == KeepUnmatched(h, keyword)
  {
    KeepUnmatchedNone(KeepUnmatched(h, keyword), keyword);
  }

  /** The empty keyword occurs in every content, so it deletes everything. */
  lemma {:induction false} KeepUnmatchedEmptyKeyword(h: seq<Message>)
    ensures KeepUnmatched(h, "") == []
  {
    if h != [] {
      assert OccursAt(LowerStr(h[0].content), LowerStr(""), 0);
      KeepUnmatchedEmptyKeyword(h[1..]);
    }
  }

  // ---------------------------------------------------------------------------
  // get_context_prompt
  // ---------------------------------------------------------------------------

  /** `max_history_messages` */
  const MaxHistoryMessages: nat := 20
  /** `context_window`, used as a number of characters */
  const ContextWindow: nat := 2048

  const Preamble: string :=
    "You are OctoBlank v1.2, an AI created with Python scripts and a JSON database. Previous conversation:\n"
  /** The cue that invites the next assistant turn. */
  const Cue: string := "\nAssistant:"

  function Min(a: nat, b: nat): nat {
    if a <= b then a else b
  }

  /** `role.capitalize()` of the two roles the manager writes. */
  function RoleName(r: Role): string {
    match r
    case User => "User"
    case Assistant => "Assistant"
  }

  /** One prompt line, `"Role: content\n"`. */
  function Render(m: Message): string {
    RoleName(m.role) + ": " + m.content + "\n"
  }

  /** The lines of `ms`, oldest first. */
  function RenderAll(ms: seq<Message>): string {
    if ms == [] then "" else RenderAll(ms[..|ms| - 1]) + Render(ms[|ms| - 1])
  }

  /** `history[-max_history_messages:]`: the most recent messages, at most 20,
      oldest first. */
  function Window(h: seq<Message>): (w: seq<Message>)
    ensures |w| == Min(|h|, MaxHistoryMessages)
    ensures IsSuffix(w, h)
  {
    if |h| <= MaxHistoryMessages then h else h[|h| - MaxHistoryMessages..]
  }

  /** The context before truncation. */
  function FullContext(h: seq<Message>): string {
    Preamble + RenderAll(Window(h)) + Cue
  }

  /** The prompt `get_context_prompt` returns: the first `context_window`
      characters of the full context, which is all of it when it fits. */
  function ContextPrompt(h: seq<Message>): (p: string)
    ensures |p| <= ContextWindow
    ensures p <= FullContext(h)
    ensures |FullContext(h)| <= ContextWindow ==> p == FullContext(h)
    ensures |FullContext(h)| > ContextWindow ==> |p| == ContextWindow
  {
    var full := FullContext(h);
    full[..Min(|full|, ContextWindow)]
  }

  /** Rendering distributes over concatenation. */
  lemma {:induction false} RenderAllAppend(a: seq<Message>, b: seq<Message>)
    ensures RenderAll(a + b) == RenderAll(a) + RenderAll(b)
    decreases |b|
  {
    if b != [] {
      var b' := b[..|b| - 1];
      DropLast(a, b);
      RenderAllAppend(a, b');
      var x, y, z := RenderAll(a), RenderAll(b'), Render(b[|b| - 1]);
      assert RenderAll(a + b) == (x + y) + z;
      assert RenderAll(b) == y + z;
      assert (x + y) + z == x + (y + z);
    } else {
      assert a + b == a;
    }
  }

  /** Dropping the last element of a concatenation with a non-empty end. */
  lemma DropLast<T>(a: seq<T>, b: seq<T>)
    requires b != []
    ensures (a + b)[..|a + b| - 1] == a + b[..|b| - 1]
    ensures (a + b)[|a + b| - 1] == b[|b| - 1]
  {
  }

  /** The oldest message of the window comes first in the prompt. */
  lemma RenderAllOldestFirst(ms: seq<Message>)
    requires ms != []
    ensures RenderAll(ms) == Render(ms[0]) + RenderAll(ms[1..])
  {
    assert [ms[0]] + ms[1..] == ms;
    RenderAllAppend([ms[0]], ms[1..]);
    RenderAllOne(ms[0]);
  }

  /** One step of building the prompt oldest first: the line of the first
      message moves from the rest into the text built so far. */
  lemma RenderAfter(pre: string, ms: seq<Message>)
    requires ms != []
    ensures pre + RenderAll(ms) == (pre + Render(ms[0])) + RenderAll(ms[1..])
  {
    RenderAllOldestFirst(ms);
  }

  lemma RenderAllOne(m: Message)
    ensures RenderAll([m]) == Render(m)
  {
    assert [m][..0] == [];
  }

  /** Appending one message slides the window: once it is full, the oldest
      message leaves it. */
  lemma WindowSlides(h: seq<Message>, m: Message)
    ensures Window(h + [m]) == (if |h| < MaxHistoryMessages then h else Window(h)[1..]) + [m]
  {
    if |h| >= MaxHistoryMessages {
      assert (h + [m])[|h| + 1 - MaxHistoryMessages..] == h[|h| - MaxHistoryMessages..][1..] + [m];
    }
  }

  /** The prompt always begins with the whole preamble. */
  lemma PromptStartsWithPreamble(h: seq<Message>)
    ensures Preamble <= ContextPrompt(h)
  {
    var full := FullContext(h);
    assert |Preamble| <= ContextWindow;
    assert full[..|Preamble|] == Preamble;
  }

  /** The last rendered line of the window is that of the newest message. */
  lemma FullContextEndsWithNewest(h: seq<Message>)
    requires h != []
    ensures IsSuffix(Render(h[|h| - 1]) + Cue, FullContext(h))
  {
    var w := Window(h);
    WindowNewest(h);
    RenderAllLast(w);
    SuffixOfParts(FullContext(h), Preamble, RenderAll(w[..|w| - 1]), Render(h[|h| - 1]), Cue);
  }

  lemma RenderAllLast(ms: seq<Message>)
    requires ms != []
    ensures RenderAll(ms) == RenderAll(ms[..|ms| - 1]) + Render(ms[|ms| - 1])
  {
  }

  lemma SuffixOfParts<T>(full: seq<T>, a: seq<T>, b: seq<T>, c: seq<T>, d: seq<T>)
    requires full == a + (b + c) + d
    ensures IsSuffix(c + d, full)
  {
    assert a + (b + c) + d == (a + b) + (c + d);
    SuffixOfConcat(a + b, c + d);
  }

  /** The window is never empty for a non-empty log, and ends with its newest
      message. */
  lemma WindowNewest(h: seq<Message>)
    requires h != []
    ensures Window(h) != [] && Window(h)[|Window(h)| - 1] == h[|h| - 1]
  {
    var w := Window(h);
    assert h[|h| - |w|..][|w| - 1] == h[|h| - 1];
  }

  /** When the full context fits, the prompt built after appending `m` ends
      with the line of `m` followed by the cue. */
  lemma PromptEndsWithLatest(h: seq<Message>, m: Message)
    requires |FullContext(h + [m])| <= ContextWindow
    ensures IsSuffix(Render(m) + Cue, ContextPrompt(h + [m]))
  {
    FullContextEndsWithNewest(h + [m]);
    assert (h + [m])[|h + [m]| - 1] == m;
  }

  lemma SuffixOfConcat<T>(a: seq<T>, b: seq<T>)
    ensures IsSuffix(b, a + b)
  {
    assert (a + b)[|a|..] == b;
  }

  /** Two short turns fit, and appear in order between preamble and cue. */
  lemma PromptOfTwoTurns(t1: Timestamp, t2: Timestamp)
    ensures ContextPrompt([Message(User, "hi", t1), Message(Assistant, "hello", t2)])
            == Preamble + "User: hi\n" + "Assistant: hello\n" + Cue
  {
    var h := [Message(User, "hi", t1), Message(Assistant, "hello", t2)];
    assert Window(h) == h;
    assert h[..1] == [h[0]];
    assert RenderAll([h[0]]) == Render(h[0]);
    assert Render(h[0]) == "User: hi\n";
    assert Render(h[1]) == "Assistant: hello\n";
    assert RenderAll(h) == "User: hi\n" + "Assistant: hello\n";
    assert |FullContext(h)| <= ContextWindow;
  }

  // ---------------------------------------------------------------------------
  // generate_response: cleaning the reply
  // ---------------------------------------------------------------------------

  const Marker: string := "Assistant:"

  /** Two occurrences of the marker never overlap: its last character, the
      colon, appears nowhere else in it. */
  lemma MarkerDoesNotOverlap(s: string, i: nat, j: nat)
    requires i < j < i + |Marker|
    requires OccursAt(s, Marker, i)
    ensures !OccursAt(s, Marker, j)
  {
    if j + |Marker| <= |s| {
      var k := i + |Marker| - 1;
      assert s[k] == s[i..i + |Marker|][|Marker| - 1] == ':';
      assert s[k] == s[j..j + |Marker|][k - j];
      assert Marker[k - j] != ':';
    }
  }

  /** An occurrence of the marker with none from its end on is the last one. */
  lemma LastMarker(s: string, i: nat)
    requires OccursAt(s, Marker, i)
    requires forall j :: i + |Marker| <= j <= |s| ==> !OccursAt(s, Marker, j)
    ensures LastOccurrence(s, Marker, i)
  {
    forall j | i < j < i + |Marker|
      ensures !OccursAt(s, Marker, j)
    {
      MarkerDoesNotOverlap(s, i, j);
    }
  }

  /** The last piece of `split('Assistant:')` starts right after the last
      marker. */
  lemma LastMarkerStart(s: string) returns (i: nat)
    requires Contains(s, Marker)
    ensures i + |Marker| <= |s| && LastOccurrence(s, Marker, i)
    ensures Last(Split(s, Marker)) == s[i + |Marker|..]
  {
    i := SplitLastAfterSep(s, Marker);
    LastMarker(s, i);
  }

  /** What follows the last marker (`split('Assistant:')[-1]`), once
      stripped, holds no marker; and the marker it follows is the last one. */
  lemma AfterLastMarker(s: string)
    requires Contains(s, Marker)
    ensures !Contains(Strip(Last(Split(s, Marker))), Marker)
    ensures exists i :: 0 <= i <= |s| - |Marker|
                        && LastOccurrence(s, Marker, i)
                        && Last(Split(s, Marker)) == s[i + |Marker|..]
  {
    var i := LastMarkerStart(s);
    SplitLastFree(s, Marker);
    StripKeepsAbsent(Last(Split(s, Marker)), Marker);
  }

  /** `response.strip()`, then, when the marker occurs, the stripped text
      after its last occurrence (`split('Assistant:')[-1].strip()`). */
  function CleanReply(raw: string): (r: string)
    ensures Trimmed(r)
    ensures !Contains(r, Marker)
    ensures !Contains(Strip(raw), Marker) ==> r == Strip(raw)
    ensures Contains(Strip(raw), Marker) ==>
              exists i :: 0 <= i <= |Strip(raw)| - |Marker|
                          && LastOccurrence(Strip(raw), Marker, i)
                          && r == Strip(Strip(raw)[i + |Marker|..])
  {
    var s := Strip(raw);
    if Contains(s, Marker) then
      AfterLastMarker(s);
      Strip(Last(Split(s, Marker)))
    else
      s
  }

  /** The cleaned reply is a piece of the raw reply. */
  lemma CleanReplyInRaw(raw: string)
    ensures Contains(raw, CleanReply(raw))
  {
    var s := Strip(raw);
    StripContained(raw);
    if Contains(s, Marker) {
      var i := LastMarkerStart(s);
      StripTailContained(s, i + |Marker|);
      ContainsTrans(raw, s, CleanReply(raw));
    }
  }

  // ---------------------------------------------------------------------------
  // The inference collaborator
  // ---------------------------------------------------------------------------

  /** What the model's `generate` call does: return text or raise. */
  datatype Inference = Generated(text: string) | Raised(error: string)

  /** `f"Error generating response: {e}"` */
  function ErrorReply(error: string): (r: string)
    ensures |r| > |error| && IsSuffix(error, r)
  {
    "Error generating response: " + error
  }
}
