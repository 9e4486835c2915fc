/** parseMessageContent: split a chat message into text and code spans at
    triple-backtick fences. */
module Segmenter {
  import opened Trimming
  import opened FencePattern

  datatype Kind = Text | Code

  /** One rendered chunk of a message, `{type, content}`. */
  datatype Span = Span(kind: Kind, content: string)

  /** The spans one match contributes: the trimmed text between `last` and
      the match when that slice is non-empty, then the trimmed body. */
  function MatchSpans(s: string, last: nat, m: Match): (r: seq<Span>)
    requires last <= m.index <= m.bodyStart <= m.close <= |s|
  {
    var code := Span(Code, Trim(s[m.bodyStart..m.close]));
    if m.index > last then [Span(Text, Trim(s[last..m.index])), code] else [code]
  }

  /** The span pushed after the loop: the trimmed rest of the message when
      `last` has not reached its end. */
  function TailSpans(s: string, last: nat): (r: seq<Span>)
    requires last <= |s|
  {
    if last < |s| then [Span(Text, Trim(s[last..]))] else []
  }

  /** `parts` as the loop leaves it when it starts with `lastIndex == last`:
      the spans of every match from `last` on, in order, then the tail. */
  function RawParts(s: string, last: nat): (r: seq<Span>)
    requires last <= |s|
    decreases |s| - last
  {
    match FirstMatch(s, last)
    case None => TailSpans(s, last)
    case Some(m) => MatchSpans(s, last, m) + RawParts(s, m.End())
  }

  /** One turn of the loop keeps `parts + RawParts(s, lastIndex)` fixed:
      `after` is `before` with the spans of match `m` pushed. */
  lemma RawPartsStep(s: string, last: nat, m: Match, before: seq<Span>, after: seq<Span>)
    requires last <= |s| && FirstMatch(s, last) == Some(m)
    requires after == (if m.index > last then before + [Span(Text, Trim(s[last..m.index]))] else before)
                      + [Span(Code, Trim(s[m.bodyStart..m.close]))]
    ensures after + RawParts(s, m.End()) == before + RawParts(s, last)
  {
    var rest := RawParts(s, m.End());
    assert RawParts(s, last) == MatchSpans(s, last, m) + rest;
    if m.index > last {
      ConcatAssoc(before, [Span(Text, Trim(s[last..m.index]))], [Span(Code, Trim(s[m.bodyStart..m.close]))]);
    }
    assert after == before + MatchSpans(s, last, m);
    ConcatAssoc(before, MatchSpans(s, last, m), rest);
  }

  lemma ConcatAssoc(a: seq<Span>, b: seq<Span>, c: seq<Span>)
    ensures a + (b + c) == (a + b) + c
  {
  }

  /** `parts.filter((p) => p.content !== "")`: the spans with non-empty
      content, in their original order. */
  function KeepNonEmpty(spans: seq<Span>): seq<Span> {
    if spans == [] then []
    else if spans[0].content == [] then KeepNonEmpty(spans[1..])
    else [spans[0]] + KeepNonEmpty(spans[1..])
  }

  /** The filter distributes over concatenation, so it keeps the order of
      the spans it lets through. */
  lemma {:induction false} KeepNonEmptyAppend(a: seq<Span>, b: seq<Span>)
    ensures KeepNonEmpty(a + b) == KeepNonEmpty(a) + KeepNonEmpty(b)
  {
    if a == [] {
      assert a + b == b;
    } else {
      var x, rest := a[0], a[1..];
      assert a == [x] + rest;
      ConcatAssoc([x], rest, b);
      KeepNonEmptyAppend(rest, b);
      KeepNonEmptyCons(x, rest + b);
      KeepNonEmptyCons(x, rest);
      if x.content != [] {
        ConcatAssoc([x], KeepNonEmpty(rest), KeepNonEmpty(b));
      }
    }
  }

  lemma KeepNonEmptyCons(x: Span, rest: seq<Span>)
    ensures KeepNonEmpty([x] + rest)
            == if x.content == [] then KeepNonEmpty(rest) else [x] + KeepNonEmpty(rest)
  {
    var t := [x] + rest;
    assert t[0] == x && t[1..] == rest;
  }

  /** The filter keeps exactly the spans with non-empty content. */
  lemma {:induction false} KeepNonEmptyMembers(spans: seq<Span>)
    ensures forall sp :: sp in KeepNonEmpty(spans) <==> sp in spans && sp.content != []
  {
    if spans != [] {
      KeepNonEmptyMembers(spans[1..]);
      assert spans == [spans[0]] + spans[1..];
    }
  }

  /** The value parseMessageContent returns for `text`. */
  function Parse(text: string): seq<Span> {
    KeepNonEmpty(RawParts(text, 0))
  }

  /** The scanning loop: each `regex.exec` is the leftmost match from
      `lastIndex`; the text before it (when the slice is non-empty) and its
      body are pushed trimmed, `lastIndex` moves past the closing fence;
      then the rest is pushed and the empty spans are filtered out. */
  method ParseMessageContent(text: string) returns (result: seq<Span>)
    ensures result == Parse(text)
  {
    var parts: seq<Span> := [];
    var lastIndex: nat := 0;
    var found := FirstMatch(text, lastIndex);
    while found.Some?
      invariant lastIndex <= |text|
      invariant found == FirstMatch(text, lastIndex)
      invariant parts + RawParts(text, lastIndex) == RawParts(text, 0)
      decreases |text| - lastIndex
    {
      var m := found.value;
      ghost var before := parts;
      if m.index > lastIndex {
        parts := parts + [Span(Text, Trim(text[lastIndex..m.index]))];
      }
      parts := parts + [Span(Code, Trim(text[m.bodyStart..m.close]))];
      RawPartsStep(text, lastIndex, m, before, parts);
      lastIndex := m.End();
      found := FirstMatch(text, lastIndex);
    }
    assert RawParts(text, lastIndex) == TailSpans(text, lastIndex);
    if lastIndex < |text| {
      parts := parts + [Span(Text, Trim(text[lastIndex..]))];
    } else {
      assert parts + [] == parts;
    }
    result := KeepNonEmpty(parts);
  }
}
