/** Full-text search over chats: a case-insensitive substring match on the
    title first, then on the messages, reporting a snippet around the
    first message match. Archived chats are skipped. */
module Search {
  import opened Wrappers
  import opened Strings
  import opened ChatTypes
  import Utils

  datatype MatchType = TitleMatch | MessageMatch

  /** One hit: the chat, where it matched, and for a message match the text
      around the match. */
  datatype SearchResult = SearchResult(chat: Chat, matchType: MatchType, snippet: Option<string>)

  /** How many characters of context a snippet keeps on each side. */
  const Context: nat := 30

  /** Start of the snippet window, `Math.max(0, idx - 30)`. */
  function WindowStart(idx: nat): nat {
    if idx >= Context then idx - Context else 0
  }

  /** End of the snippet window, `Math.min(content.length, idx + q.length + 30)`. */
  function WindowEnd(len: nat, idx: nat, qlen: nat): nat {
    if idx + qlen + Context < len then idx + qlen + Context else len
  }

  /** The snippet for a match of a query of length `qlen` at `idx`: the
      window around the match, with `…` where text was cut off. It is never
      longer than the match, 30 characters on each side and two `…`. */
  function Snippet(content: string, idx: nat, qlen: nat): (r: string)
    ensures idx + qlen <= |content| ==> |r| <= qlen + 2 * Context + 2
  {
    var start, end := WindowStart(idx), WindowEnd(|content|, idx, qlen);
    (if start > 0 then [Utils.Ellipsis] else "")
      + Slice(content, start, end)
      + (if end < |content| then [Utils.Ellipsis] else "")
  }

  /** The lower-cased `q` occurs in the lower-cased text (`includes`). */
  predicate Matches(text: string, q: string) {
    IndexOf(ToLower(text), q) != -1
  }

  /** The snippet of the first message whose content matches, if any. */
  function FirstMessageMatch(messages: seq<Message>, q: string): (r: Option<string>)
    ensures r.None? <==> forall k :: 0 <= k < |messages| ==> !Matches(messages[k].content, q)
  {
    if messages == [] then None
    else
      var idx := IndexOf(ToLower(messages[0].content), q);
      if idx != -1 then Some(Snippet(messages[0].content, idx, |q|))
      else
        var r := FirstMessageMatch(messages[1..], q);
        assert forall k :: 1 <= k < |messages| ==> messages[k] == messages[1..][k - 1];
        r
  }

  /** What one chat contributes for the normalised query `q`: nothing for
      an archived chat or a chat matching nowhere; a title match, without
      snippet, when the title matches; otherwise a message match with a
      snippet. A result always names the chat itself. */
  function ChatResult(chat: Chat, q: string): (r: Option<SearchResult>)
    ensures r.Some? ==> r.value.chat == chat && !IsArchived(chat)
    ensures r.None? <==> (IsArchived(chat) ||
      (!Matches(chat.title, q) && forall k :: 0 <= k < |chat.messages| ==> !Matches(chat.messages[k].content, q)))
    ensures r.Some? ==> (r.value.matchType == TitleMatch <==> Matches(chat.title, q))
    ensures r.Some? ==> (r.value.snippet.None? <==> r.value.matchType == TitleMatch)
  {
    if IsArchived(chat) then None
    else if Matches(chat.title, q) then Some(SearchResult(chat, TitleMatch, None))
    else match FirstMessageMatch(chat.messages, q)
      case Some(snippet) => Some(SearchResult(chat, MessageMatch, Some(snippet)))
      case None => None
  }

  /** What one chat contributes to the results: nothing or one result. */
  function Contribution(chat: Chat, q: string): (r: seq<SearchResult>)
    ensures |r| <= 1
  {
    match ChatResult(chat, q)
    case Some(res) => [res]
    case None => []
  }

  /** The results for `chats`, in chat order. */
  function ResultsFor(chats: seq<Chat>, q: string): (r: seq<SearchResult>)
    ensures |r| <= |chats|
  {
    if chats == [] then []
    else ResultsFor(chats[..|chats| - 1], q) + Contribution(chats[|chats| - 1], q)
  }

  /** One more chat adds its own contribution at the end. */
  lemma ResultsForStep(chats: seq<Chat>, i: nat, q: string)
    requires i < |chats|
    ensures ResultsFor(chats[..i + 1], q) == ResultsFor(chats[..i], q) + Contribution(chats[i], q)
  {
    assert chats[..i + 1][..i] == chats[..i];
  }

  /** `searchChats(chats, query)`: nothing for a blank query; otherwise the
      results for the lower-cased, trimmed query. */
  function SearchResults(chats: seq<Chat>, query: string): seq<SearchResult> {
    if IsBlank(query) then [] else ResultsFor(chats, Trim(ToLower(query)))
  }

  /** The query is trimmed and lower-cased only when it is not blank, and
      then it is never empty: an empty query, which every text includes,
      cannot reach the loop. */
  lemma NormalisedQueryNonEmpty(query: string)
    requires !IsBlank(query)
    ensures Trim(ToLower(query)) != ""
  {
    LowerKeepsBlank(query);
  }

  /** `searchChats`: the loop over the chats, with the inner loop over a
      chat's messages that stops at the first match. */
  method SearchChats(chats: seq<Chat>, query: string) returns (results: seq<SearchResult>)
    ensures results == SearchResults(chats, query)
  {
    if IsBlank(query) {
      return [];
    }
    var q := Trim(ToLower(query));
    results := [];
    var i := 0;
    while i < |chats|
      invariant 0 <= i <= |chats|
      invariant results == ResultsFor(chats[..i], q)
    {
      var chat := chats[i];
      ResultsForStep(chats, i, q);
      if IsArchived(chat) {
        i := i + 1;
        continue;
      }
      if IndexOf(ToLower(chat.title), q) != -1 {
        results := results + [SearchResult(chat, TitleMatch, None)];
        i := i + 1;
        continue;
      }
      var found := MessageSnippet(chat.messages, q);
      if found.Some? {
        results := results + [SearchResult(chat, MessageMatch, found)];
      }
      i := i + 1;
    }
    assert chats[..|chats|] == chats;
  }

  /** The loop over a chat's messages that stops at the first one whose
      content matches, and makes the snippet around that match. */
  method MessageSnippet(messages: seq<Message>, q: string) returns (found: Option<string>)
    ensures found == FirstMessageMatch(messages, q)
  {
    found := None;
    var j := 0;
    while j < |messages|
      invariant 0 <= j <= |messages|
      invariant FirstMessageMatch(messages, q) == FirstMessageMatch(messages[j..], q)
    {
      var msg := messages[j];
      var idx := IndexOf(ToLower(msg.content), q);
      assert messages[j..][0] == msg;
      assert messages[j..][1..] == messages[j + 1..];
      if idx != -1 {
        found := Some(Snippet(msg.content, idx, |q|));
        break;
      }
      j := j + 1;
    }
  }

  // ---------------------------------------------------------------------
  // Properties
  // ---------------------------------------------------------------------

  /** A blank query finds nothing. */
  lemma BlankQueryFindsNothing(chats: seq<Chat>, query: string)
    requires IsBlank(query)
    ensures SearchResults(chats, query) == []
  {
  }

  /** Every result is about a chat of the input that is not archived. */
  lemma {:induction false} ResultsFromInput(chats: seq<Chat>, q: string)
    ensures forall k :: 0 <= k < |ResultsFor(chats, q)| ==>
      ResultsFor(chats, q)[k].chat in chats && !IsArchived(ResultsFor(chats, q)[k].chat)
  {
    if chats != [] {
      var init := chats[..|chats| - 1];
      ResultsFromInput(init, q);
      assert forall c :: c in init ==> c in chats;
    }
  }

  /** Results of a concatenation are the concatenated results: each chat
      is looked at on its own, and the results keep the order of the
      chats. */
  lemma {:induction false} ResultsForAppend(a: seq<Chat>, b: seq<Chat>, q: string)
    ensures ResultsFor(a + b, q) == ResultsFor(a, q) + ResultsFor(b, q)
    decreases |b|
  {
    if b == [] {
      assert a + b == a;
    } else {
      var b', last := b[..|b| - 1], b[|b| - 1];
      assert (a + b)[..|a + b| - 1] == a + b';
      assert (a + b)[|a + b| - 1] == last;
      calc {
        ResultsFor(a + b, q);
        ResultsFor(a + b', q) + Contribution(last, q);
        { ResultsForAppend(a, b', q); }
        ResultsFor(a, q) + ResultsFor(b', q) + Contribution(last, q);
        ResultsFor(a, q) + ResultsFor(b, q);
      }
    }
  }

  /** One chat yields at most one result, and it yields none exactly when
      it is archived or neither its title nor any of its messages
      matches. */
  lemma OneChatResult(chat: Chat, q: string)
    ensures |ResultsFor([chat], q)| <= 1
    ensures ResultsFor([chat], q) == [] <==>
      IsArchived(chat) ||
      (!Matches(chat.title, q) &&
       forall k :: 0 <= k < |chat.messages| ==> !Matches(chat.messages[k].content, q))
  {
    assert [chat][..0] == [];
  }

  /** A chat that is not archived and whose title matches yields a title
      result without a snippet, whatever its messages are. */
  lemma TitleMatchFirst(chat: Chat, q: string)
    requires !IsArchived(chat) && Matches(chat.title, q)
    ensures ResultsFor([chat], q) == [SearchResult(chat, TitleMatch, None)]
  {
    assert [chat][..0] == [];
  }

  /** A chat that is not archived and whose title does not match but one of
      whose messages does yields a message result with a snippet. */
  lemma MessageMatchSecond(chat: Chat, q: string, j: nat)
    requires !IsArchived(chat) && !Matches(chat.title, q)
    requires j < |chat.messages| && Matches(chat.messages[j].content, q)
    ensures |ResultsFor([chat], q)| == 1
    ensures ResultsFor([chat], q)[0].matchType == MessageMatch
    ensures ResultsFor([chat], q)[0].snippet.Some?
  {
    assert [chat][..0] == [];
  }

  /** A message match reports the first matching message only: the snippet
      is the one of message `j` when `j` matches and no message before it
      does. */
  lemma {:induction false} FirstMatchingMessage(messages: seq<Message>, q: string, j: nat)
    requires j < |messages| && Matches(messages[j].content, q)
    requires forall k :: 0 <= k < j ==> !Matches(messages[k].content, q)
    ensures FirstMessageMatch(messages, q) ==
      Some(Snippet(messages[j].content, IndexOf(ToLower(messages[j].content), q), |q|))
  {
    if j > 0 {
      FirstMatchingMessage(messages[1..], q, j - 1);
    }
  }

  /** The snippet window `[max(0, idx-30), min(len, idx+|q|+30))` holds the
      whole match, and it is cut at the start exactly when the match starts
      more than 30 characters in, and at the end exactly when more than 30
      characters follow the match. */
  lemma SnippetWindow(len: nat, idx: nat, qlen: nat)
    requires idx + qlen <= len
    ensures WindowStart(idx) <= idx && idx + qlen <= WindowEnd(len, idx, qlen) <= len
    ensures WindowStart(idx) > 0 <==> idx > Context
    ensures WindowEnd(len, idx, qlen) < len <==> idx + qlen + Context < len
    ensures WindowEnd(len, idx, qlen) - WindowStart(idx) <= qlen + 2 * Context
  {
  }

  /** The snippet is the window of the content, with `…` in front exactly
      when the window is cut at the start and `…` behind exactly when it is
      cut at the end. */
  lemma SnippetShape(content: string, idx: nat, qlen: nat)
    requires idx + qlen <= |content|
    ensures var s := Snippet(content, idx, qlen);
      var start, end := WindowStart(idx), WindowEnd(|content|, idx, qlen);
      var lead := if start > 0 then 1 else 0;
      var trail := if end < |content| then 1 else 0;
      && |s| == lead + (end - start) + trail
      && (start > 0 ==> s[0] == Utils.Ellipsis)
      && (end < |content| ==> s[|s| - 1] == Utils.Ellipsis)
      && s[lead..lead + (end - start)] == content[start..end]
  {
    var start, end := WindowStart(idx), WindowEnd(|content|, idx, qlen);
    assert Slice(content, start, end) == content[start..end];
  }

  /** The matched text appears in the snippet right after the context
      before it: at offset 31 when the start was cut (30 characters and the
      `…`), at `idx` otherwise; and it is the query up to case. */
  lemma SnippetHoldsMatch(content: string, q: string, idx: nat)
    requires OccursAt(ToLower(content), q, idx)
    ensures var s := Snippet(content, idx, |q|);
      var at := if idx > Context then Context + 1 else idx;
      && at + |q| <= |s|
      && s[at..at + |q|] == content[idx..idx + |q|]
      && ToLower(s[at..at + |q|]) == q
  {
    var s := Snippet(content, idx, |q|);
    var at := if idx > Context then Context + 1 else idx;
    SnippetKeepsMatch(content, idx, |q|);
    LowerOfCopy(s, at, content, idx, q);
  }

  /** A copy of an occurrence of `q` in the lower-cased text lower-cases
      to `q`. */
  lemma LowerOfCopy(s: string, at: nat, content: string, idx: nat, q: string)
    requires at + |q| <= |s| && idx + |q| <= |content|
    requires s[at..at + |q|] == content[idx..idx + |q|]
    requires OccursAt(ToLower(content), q, idx)
    ensures ToLower(s[at..at + |q|]) == q
  {
    LowerOfSlice(content, idx, idx + |q|);
  }

  /** The characters of the match sit in the snippet at the offset of the
      match within the window, plus one for a leading `…`. */
  lemma SnippetKeepsMatch(content: string, idx: nat, qlen: nat)
    requires idx + qlen <= |content|
    ensures var s := Snippet(content, idx, qlen);
      var at := if idx > Context then Context + 1 else idx;
      && at + qlen <= |s|
      && s[at..at + qlen] == content[idx..idx + qlen]
  {
    var start, end := WindowStart(idx), WindowEnd(|content|, idx, qlen);
    var pre: string := if start > 0 then [Utils.Ellipsis] else "";
    var post: string := if end < |content| then [Utils.Ellipsis] else "";
    var body := content[start..end];
    assert Snippet(content, idx, qlen) == pre + body + post;
    var o := idx - start;
    PieceOfThree(pre, body, post, o, qlen);
    SliceOfSlice(content, start, end, o, qlen);
  }

  /** A piece of the middle part of `pre + body + post`, found at the
      offset `|pre|` further on. */
  lemma PieceOfThree<T>(pre: seq<T>, body: seq<T>, post: seq<T>, o: nat, n: nat)
    requires o + n <= |body|
    ensures (pre + body + post)[|pre| + o..|pre| + o + n] == body[o..o + n]
  {
    var u, v := (pre + body + post)[|pre| + o..|pre| + o + n], body[o..o + n];
    forall k | 0 <= k < n
      ensures u[k] == v[k]
    {
      assert u[k] == (pre + body + post)[|pre| + o + k];
    }
  }

  /** Lower-casing commutes with slicing. */
  lemma LowerOfSlice(s: string, i: nat, j: nat)
    requires i <= j <= |s|
    ensures ToLower(s[i..j]) == ToLower(s)[i..j]
  {
    var w, l := s[i..j], ToLower(s);
    var u, v := ToLower(w), l[i..j];
    forall k | 0 <= k < j - i
      ensures u[k] == v[k]
    {
      calc {
        u[k];
        LowerChar(w[k]);
        { assert w[k] == s[i + k]; }
        LowerChar(s[i + k]);
        l[i + k];
        v[k];
      }
    }
  }

  /** A slice of a slice is a slice of the whole. */
  lemma SliceOfSlice<T>(s: seq<T>, i: nat, j: nat, o: nat, n: nat)
    requires i <= j <= |s| && o + n <= j - i
    ensures s[i..j][o..o + n] == s[i + o..i + o + n]
  {
    var t := s[i..j];
    var u, v := t[o..o + n], s[i + o..i + o + n];
    forall k | 0 <= k < n
      ensures u[k] == v[k]
    {
      assert u[k] == t[o + k];
      assert t[o + k] == s[i + o + k];
    }
  }
}
