/** The plugin's settings as `IntelligentRetry.__init__` reads them
    (main.py:26-43): attempt count, delay and the error-keyword list. */
module Keywords {
  import opened Wrappers
  import opened Text

  /** The three configuration keys the plugin reads; `None` is a key that is absent. */
  datatype Config = Config(maxAttempts: Option<int>, retryDelay: Option<int>, errorKeywords: Option<string>)

  const DefaultMaxAttempts: int := 3
  const DefaultRetryDelay: int := 2

  /** The default `error_keywords` text: six phrases, one per line. */
  const DefaultKeywordText: string :=
    "api 返回的内容为空\n请求失败\n错误类型\n错误信息\n调用失败\n处理失败"

  /** The list the default text yields. */
  const DefaultKeywords: seq<string> :=
    ["api 返回的内容为空", "请求失败", "错误类型", "错误信息", "调用失败", "处理失败"]

  /** A keyword as it is stored: non-empty, with no surrounding whitespace, lower-case. */
  predicate IsStoredKeyword(k: string) {
    k != "" && Strip(k) == k && Lower(k) == k
  }

  /** A non-blank line, stripped and then lower-cased, is a stored keyword. */
  lemma NormalizedLine(line: string)
    requires !IsBlank(line)
    ensures IsStoredKeyword(Lower(Strip(line)))
  {
    var t := Strip(line);
    LowerKeepsTrim(t);
    StripTrimmed(Lower(t));
    LowerIdempotent(t);
  }

  /** The comprehension `[k.strip().lower() for k in lines if k.strip()]`. */
  function KeywordsFromLines(lines: seq<string>): (keywords: seq<string>)
    ensures |keywords| <= |lines|
    ensures forall i :: 0 <= i < |keywords| ==> IsStoredKeyword(keywords[i])
    decreases |lines|
  {
    if lines == [] then
      []
    else
      var rest := KeywordsFromLines(lines[1..]);
      if !IsBlank(lines[0]) then  // `k.strip()` is truthy exactly when `k` is not blank
        NormalizedLine(lines[0]);
        [Lower(Strip(lines[0]))] + rest
      else
        rest
  }

  /** The keyword list built from a newline-separated configuration text. */
  function ParseKeywords(text: string): seq<string> {
    KeywordsFromLines(Split(text, '\n'))
  }

  /** Line order is kept: the list for two blocks of lines is the first block's
      list followed by the second's. */
  lemma {:induction false} KeywordsAppend(a: seq<string>, b: seq<string>)
    ensures KeywordsFromLines(a + b) == KeywordsFromLines(a) + KeywordsFromLines(b)
    decreases |a|
  {
    if a == [] {
      assert a + b == b;
    } else {
      assert (a + b)[1..] == a[1..] + b;
      assert (a + b)[0] == a[0];
      KeywordsAppend(a[1..], b);
    }
  }

  /** One line contributes its normalised text if it is not blank, and nothing otherwise. */
  lemma KeywordsOfLine(line: string)
    ensures KeywordsFromLines([line]) == if IsBlank(line) then [] else [Lower(Strip(line))]
  {
    assert [line][1..] == [];
  }

  /** Membership: a keyword is stored exactly when some non-blank line normalises to it. */
  lemma {:induction false} KeywordsMembership(lines: seq<string>, k: string)
    ensures k in KeywordsFromLines(lines) <==>
            exists i :: 0 <= i < |lines| && !IsBlank(lines[i]) && k == Lower(Strip(lines[i]))
    decreases |lines|
  {
    if lines != [] {
      KeywordsMembership(lines[1..], k);
      if exists i :: 0 <= i < |lines| && !IsBlank(lines[i]) && k == Lower(Strip(lines[i])) {
        var i :| 0 <= i < |lines| && !IsBlank(lines[i]) && k == Lower(Strip(lines[i]));
        if i > 0 {
          assert lines[1..][i - 1] == lines[i];
        }
      }
      if k in KeywordsFromLines(lines[1..]) {
        var i :| 0 <= i < |lines| - 1 && !IsBlank(lines[1..][i]) && k == Lower(Strip(lines[1..][i]));
        assert lines[i + 1] == lines[1..][i];
      }
    }
  }

  /** The list is empty exactly when every line is blank (the case main.py:42-43 warns about). */
  lemma {:induction false} KeywordsEmpty(lines: seq<string>)
    ensures KeywordsFromLines(lines) == [] <==> forall i :: 0 <= i < |lines| ==> IsBlank(lines[i])
    decreases |lines|
  {
    if lines != [] {
      KeywordsEmpty(lines[1..]);
      if forall i :: 0 <= i < |lines| - 1 ==> IsBlank(lines[1..][i]) {
        forall i | 1 <= i < |lines| ensures IsBlank(lines[i]) {
          assert lines[i] == lines[1..][i - 1];
        }
      }
    }
  }

  /** Lines that are already stored keywords are kept exactly as they are. */
  lemma {:induction false} KeywordsOfStored(lines: seq<string>)
    requires forall i :: 0 <= i < |lines| ==> IsStoredKeyword(lines[i])
    ensures KeywordsFromLines(lines) == lines
    decreases |lines|
  {
    if lines != [] {
      KeywordsOfStored(lines[1..]);
      assert !IsBlank(lines[0]);
      assert [lines[0]] + lines[1..] == lines;
    }
  }

  /** A literal line: no newline, trimmed, lower-case and non-empty. */
  lemma PlainKeyword(k: string)
    requires '\n' !in k && k != [] && IsTrimmed(k) && IsLower(k)
    ensures Split(k, '\n') == [k] && IsStoredKeyword(k)
  {
    SplitNoSeparator(k, '\n');
    StripTrimmed(k);
    LowerIdempotent(k);
  }

  /** The default text is the six default phrases joined by newlines. */
  lemma DefaultTextJoined()
    ensures DefaultKeywordText == Join(DefaultKeywords, '\n')
  {
  }

  /** Each default phrase is a single line, trimmed, lower-case and non-empty. */
  lemma DefaultKeywordsPlain()
    ensures forall i :: 0 <= i < |DefaultKeywords| ==>
      '\n' !in DefaultKeywords[i] && DefaultKeywords[i] != [] &&
      IsTrimmed(DefaultKeywords[i]) && IsLower(DefaultKeywords[i])
  {
  }

  /** With `error_keywords` absent, the plugin stores exactly the six default phrases. */
  lemma DefaultKeywordsParsed()
    ensures ParseKeywords(DefaultKeywordText) == DefaultKeywords
  {
    var k := DefaultKeywords;
    DefaultTextJoined();
    DefaultKeywordsPlain();
    SplitJoin(k, '\n');
    forall i | 0 <= i < |k| ensures IsStoredKeyword(k[i]) {
      PlainKeyword(k[i]);
    }
    KeywordsOfStored(k);
  }
}
