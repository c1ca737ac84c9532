/** The bad-reply test of `check_and_retry` (main.py:94-113): a reply is bad when its
    plain text holds an error keyword, or else when its message chain has no content. */
module Classifier {
  import opened Text

  /** One segment of a message chain: plain text, or any other kind (image, mention, ...). */
  datatype Segment = Plain(text: string) | Other

  /** The event's result as the hook reads it: its message chain, and the text the
      framework's `get_plain_text()` reports for it. */
  datatype Reply = Reply(plainText: string, chain: seq<Segment>)

  /** `event.plain_result(text)`: a result made of one plain segment. */
  function PlainResult(text: string): Reply {
    Reply(text, [Plain(text)])
  }

  /** `any(keyword in text for keyword in keywords)`. */
  predicate HasKeyword(text: string, keywords: seq<string>) {
    exists i :: 0 <= i < |keywords| && Contains(text, keywords[i])
  }

  /** The keyword check of main.py:98-102: the text is non-empty and its lower-cased
      form contains a keyword. */
  predicate IsErrorText(text: string, keywords: seq<string>) {
    text != "" && HasKeyword(Lower(text), keywords)
  }

  /** A segment counts as content when it is not plain text, or is plain text that
      is not blank once stripped (main.py:107-108). */
  predicate IsContent(c: Segment) {
    !c.Plain? || !IsBlank(c.text)
  }

  /** `has_content` of main.py:106-110. */
  predicate HasContent(chain: seq<Segment>) {
    exists i :: 0 <= i < |chain| && IsContent(chain[i])
  }

  /** The reply calls for a retry: error text, or else no content (main.py:95-113). */
  predicate IsBadReply(reply: Reply, keywords: seq<string>) {
    IsErrorText(reply.plainText, keywords) || !HasContent(reply.chain)
  }

  /** The keyword test is substring search at some offset of the lower-cased text. */
  lemma ErrorTextAt(text: string, keywords: seq<string>)
    ensures IsErrorText(text, keywords) <==>
      text != "" &&
      exists i, p :: 0 <= i < |keywords| && 0 <= p <= |text| && keywords[i] <= Lower(text)[p..]
  {
    forall i | 0 <= i < |keywords| {
      ContainsAt(Lower(text), keywords[i]);
    }
  }

  /** The keyword test ignores case: two texts that lower-case alike are flagged alike. */
  lemma ErrorTextIgnoresCase(a: string, b: string, keywords: seq<string>)
    requires Lower(a) == Lower(b)
    ensures IsErrorText(a, keywords) <==> IsErrorText(b, keywords)
  {
    assert |a| == |Lower(a)| == |b|;
  }

  /** Flagging the lower-cased text is the same as flagging the text. */
  lemma ErrorTextOfLowered(text: string, keywords: seq<string>)
    ensures IsErrorText(Lower(text), keywords) <==> IsErrorText(text, keywords)
  {
    LowerIdempotent(text);
    ErrorTextIgnoresCase(Lower(text), text, keywords);
  }

  /** No keyword is empty, so the empty text never holds one. */
  lemma EmptyTextHasNoKeyword(keywords: seq<string>)
    requires forall i :: 0 <= i < |keywords| ==> keywords[i] != ""
    ensures !HasKeyword("", keywords)
  {
    forall i | 0 <= i < |keywords| ensures !Contains("", keywords[i]) {
      ContainsInEmpty(keywords[i]);
    }
  }

  /** A chain lacks content exactly when every segment is plain text that strips to
      nothing; the empty chain is one of them. */
  lemma NoContentIff(chain: seq<Segment>)
    ensures !HasContent(chain) <==>
      forall i :: 0 <= i < |chain| ==> chain[i].Plain? && Strip(chain[i].text) == ""
  {
  }

  /** A plain result whose text is not blank has content. */
  lemma PlainResultHasContent(text: string)
    requires Strip(text) != ""
    ensures HasContent(PlainResult(text).chain)
  {
    assert IsContent(PlainResult(text).chain[0]);
  }

  /** A chain has content exactly when one of its two halves has. */
  lemma HasContentAppend(a: seq<Segment>, b: seq<Segment>)
    ensures HasContent(a + b) <==> HasContent(a) || HasContent(b)
  {
    if HasContent(a + b) {
      var i :| 0 <= i < |a + b| && IsContent((a + b)[i]);
      if i >= |a| {
        assert (a + b)[i] == b[i - |a|];
      }
    }
    if HasContent(a) {
      var i :| 0 <= i < |a| && IsContent(a[i]);
      assert (a + b)[i] == a[i];
    }
    if HasContent(b) {
      var i :| 0 <= i < |b| && IsContent(b[i]);
      assert (a + b)[|a| + i] == b[i];
    }
  }
}
