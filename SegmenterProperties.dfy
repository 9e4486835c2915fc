/** What parseMessageContent promises its renderer: which spans come out,
    in what order, and how fences, language tags and whitespace are treated. */
module SegmenterProperties {
  import opened Trimming
  import opened FencePattern
  import opened Segmenter

  /** The span a fence-free stretch of prose renders as: none when it trims
      to nothing, otherwise one text span holding it trimmed. */
  function Prose(s: string): seq<Span> {
    if Trim(s) == [] then [] else [Span(Text, Trim(s))]
  }

  /** The span a code body renders as: none when it trims to nothing,
      otherwise one code span holding it trimmed. */
  function Fenced(body: string): seq<Span> {
    if Trim(body) == [] then [] else [Span(Code, Trim(body))]
  }

  // ---------------------------------------------------------------------
  // Every span is non-empty and trimmed

  lemma {:induction false} RawPartsTrimmed(s: string, last: nat)
    requires last <= |s|
    ensures forall sp :: sp in RawParts(s, last) ==> IsTrimmed(sp.content)
    decreases |s| - last
  {
    match FirstMatch(s, last)
    case None =>
    case Some(m) =>
      RawPartsTrimmed(s, m.End());
  }

  /** Every span the parser returns has non-empty content that is its own
      trim: no leading or trailing whitespace. */
  lemma ParseSpansTrimmedNonEmpty(text: string)
    ensures forall sp :: sp in Parse(text) ==> sp.content != [] && IsTrimmed(sp.content)
    ensures forall sp :: sp in Parse(text) ==> Trim(sp.content) == sp.content
  {
    RawPartsTrimmed(text, 0);
    KeepNonEmptyMembers(RawParts(text, 0));
    forall sp | sp in Parse(text)
      ensures Trim(sp.content) == sp.content
    {
      TrimmedIsFixed(sp.content);
    }
  }

  // ---------------------------------------------------------------------
  // Messages without a complete fence

  /** A message with no "```" in it is one trimmed text span, or nothing
      when it is all whitespace (the empty message included). */
  lemma NoFenceParse(text: string)
    requires forall i :: !FenceAt(text, i)
    ensures Parse(text) == Prose(text)
  {
    assert FirstMatch(text, 0).None?;
    KeepTail(text, 0);
    assert text[0..] == text;
  }

  /** The parser is total and the default empty message yields no spans. */
  lemma EmptyMessage()
    ensures Parse("") == []
  {
    NoFenceParse("");
  }

  /** When the first fence at or after `last` has no closing fence after
      its tag, the pattern matches nowhere from `last` on: the rest of the
      message becomes at most one trimmed text span and never code. */
  lemma UnterminatedRest(s: string, last: nat, p: nat)
    requires last <= |s| && FindFence(s, last) == Some(p)
    requires FindFence(s, BodyStart(s, p)).None?
    ensures FirstMatch(s, last).None?
    ensures RawParts(s, last) == if last < |s| then [Span(Text, Trim(s[last..]))] else []
  {
    forall p' | last <= p'
      ensures MatchAt(s, p').None?
    {
      if p <= p' {
        NoCloseNoLaterMatch(s, p, p');
      }
    }
  }

  /** A message whose first fence is never closed is treated as plain text. */
  lemma UnterminatedParse(text: string, p: nat)
    requires FindFence(text, 0) == Some(p) && FindFence(text, BodyStart(text, p)).None?
    ensures Parse(text) == Prose(text)
  {
    UnterminatedRest(text, 0, p);
    KeepTail(text, 0);
    assert text[0..] == text;
  }

  // ---------------------------------------------------------------------
  // One fenced block between two stretches of prose

  /** `pre`, an opening fence with language tag `tag`, a line feed when
      `newline` holds, the body, a closing fence, then `post`. */
  function OneFence(pre: string, tag: string, newline: bool, body: string, post: string): string {
    pre + "```" + tag + (if newline then "\n" else "") + body + "```" + post
  }

  /** The conditions under which `OneFence` holds exactly one fenced block
      whose tag is `tag` and whose body is `body`: no backtick outside the
      fences, and, without the line feed, a body that cannot be read as
      more of the tag or as the optional line feed. */
  predicate WellSeparated(pre: string, tag: string, newline: bool, body: string, post: string) {
    '`' !in pre && '`' !in body && '`' !in post
    && (forall i :: 0 <= i < |tag| ==> IsWordChar(tag[i]))
    && (!newline ==> body == [] || (!IsWordChar(body[0]) && body[0] != '\n'))
  }

  /** Where the pieces of `OneFence` sit in the assembled message. */
  lemma OneFenceLayout(pre: string, tag: string, newline: bool, body: string, post: string)
    ensures var s := OneFence(pre, tag, newline, body, post);
            var T := |pre| + 3 + |tag|;
            var J := T + (if newline then 1 else 0);
            var Q := J + |body|;
            |s| == Q + 3 + |post|
            && s[..|pre|] == pre && s[|pre|..|pre| + 3] == "```" && s[|pre| + 3..T] == tag
            && s[T..J] == (if newline then "\n" else "") && s[J..Q] == body
            && s[Q..Q + 3] == "```" && s[Q + 3..] == post
  {
    var nl: string := if newline then "\n" else "";
    var s1 := pre + "```";
    var s2 := s1 + tag;
    var s3 := s2 + nl;
    var s4 := s3 + body;
    var s5 := s4 + "```";
    var s := s5 + post;
    assert s == OneFence(pre, tag, newline, body, post);
    var P, T, J, Q := |pre|, |s2|, |s3|, |s4|;
    LastPiece(s5, post);
    LastPiece(s4, "```");
    PrefixSlice(s5, post, Q, Q + 3);
    LastPiece(s3, body);
    PrefixSlice(s4, "```", J, Q);
    PrefixSlice(s5, post, J, Q);
    LastPiece(s2, nl);
    PrefixSlice(s3, body, T, J);
    PrefixSlice(s4, "```", T, J);
    PrefixSlice(s5, post, T, J);
    LastPiece(s1, tag);
    PrefixSlice(s2, nl, P + 3, T);
    PrefixSlice(s3, body, P + 3, T);
    PrefixSlice(s4, "```", P + 3, T);
    PrefixSlice(s5, post, P + 3, T);
    LastPiece(pre, "```");
    PrefixSlice(s1, tag, P, P + 3);
    PrefixSlice(s2, nl, P, P + 3);
    PrefixSlice(s3, body, P, P + 3);
    PrefixSlice(s4, "```", P, P + 3);
    PrefixSlice(s5, post, P, P + 3);
    PrefixSlice(s1, tag, 0, P);
    PrefixSlice(s2, nl, 0, P);
    PrefixSlice(s3, body, 0, P);
    PrefixSlice(s4, "```", 0, P);
    PrefixSlice(s5, post, 0, P);
  }

  /** Where `y` sits in `x + y`. */
  lemma LastPiece(x: string, y: string)
    ensures (x + y)[..|x|] == x && (x + y)[|x|..] == y && (x + y)[|x|..|x| + |y|] == y
  {
  }

  /** A slice inside the first part of a concatenation is a slice of that part. */
  lemma PrefixSlice(x: string, y: string, a: nat, b: nat)
    requires a <= b <= |x|
    ensures (x + y)[a..b] == x[a..b]
  {
  }

  /** The pattern at the level of positions: a fence at `P` with no
      backtick before it, word characters up to `T` and none at `T`, the
      optional line feed up to `J`, no backtick up to a fence at `Q`. Then
      `regex.exec` from 0 reports exactly that match. */
  lemma FirstMatchAt(s: string, P: nat, T: nat, J: nat, Q: nat)
    requires MatchLayout(s, P, T, J, Q)
    ensures FirstMatch(s, 0) == Some(Match(P, J, Q))
  {
    assert TagEnd(s, P + 3) == T;
    assert BodyStart(s, P) == J;
    assert FindFence(s, J) == Some(Q);
    assert MatchAt(s, P) == Some(Match(P, J, Q));
  }

  predicate MatchLayout(s: string, P: nat, T: nat, J: nat, Q: nat) {
    FenceAt(s, P) && FenceAt(s, Q) && P + 3 <= T <= J <= Q
    && (forall i :: 0 <= i < P ==> s[i] != '`')
    && (forall i :: P + 3 <= i < T ==> IsWordChar(s[i]))
    && !IsWordChar(s[T])
    && ((J == T + 1 && s[T] == '\n') || (J == T && s[T] != '\n'))
    && (forall i :: J <= i < Q ==> s[i] != '`')
  }

  lemma OneFenceMatch(pre: string, tag: string, newline: bool, body: string, post: string)
    requires WellSeparated(pre, tag, newline, body, post)
    ensures var s := OneFence(pre, tag, newline, body, post);
            var j := |pre| + 3 + |tag| + (if newline then 1 else 0);
            FirstMatch(s, 0) == Some(Match(|pre|, j, j + |body|))
            && s[..|pre|] == pre && s[j..j + |body|] == body && s[j + |body| + 3..] == post
  {
    var s := OneFence(pre, tag, newline, body, post);
    var T := |pre| + 3 + |tag|;
    var J := T + (if newline then 1 else 0);
    OneFenceLayout(pre, tag, newline, body, post);
    LaidOut(s, pre, tag, newline, body, post);
    FirstMatchAt(s, |pre|, T, J, J + |body|);
  }

  /** A message laid out as `OneFence` lays it out has the match layout
      of its one fenced block. */
  lemma LaidOut(s: string, pre: string, tag: string, newline: bool, body: string, post: string)
    requires WellSeparated(pre, tag, newline, body, post)
    requires var T := |pre| + 3 + |tag|;
             var J := T + (if newline then 1 else 0);
             var Q := J + |body|;
             |s| == Q + 3 + |post|
             && s[..|pre|] == pre && s[|pre|..|pre| + 3] == "```" && s[|pre| + 3..T] == tag
             && s[T..J] == (if newline then "\n" else "") && s[J..Q] == body
             && s[Q..Q + 3] == "```" && s[Q + 3..] == post
    ensures var T := |pre| + 3 + |tag|;
            var J := T + (if newline then 1 else 0);
            MatchLayout(s, |pre|, T, J, J + |body|)
  {
    var P := |pre|;
    var T := P + 3 + |tag|;
    var J := T + (if newline then 1 else 0);
    var Q := J + |body|;
    NoTickPrefix(s, P, pre);
    WordSlice(s, P + 3, T, tag);
    NoTickSlice(s, J, Q, body);
    FenceSlice(s, P);
    FenceSlice(s, Q);
    AfterTag(s, T, J, Q, newline, body);
  }

  /** What follows the tag in a laid-out message: the line feed when there
      is one, otherwise the body or the closing fence, neither of which can
      extend the tag. */
  lemma AfterTag(s: string, T: nat, J: nat, Q: nat, newline: bool, body: string)
    requires J == T + (if newline then 1 else 0) && Q == J + |body| && Q + 3 <= |s|
    requires s[T..J] == (if newline then "\n" else "") && s[J..Q] == body && s[Q..Q + 3] == "```"
    requires !newline ==> body == [] || (!IsWordChar(body[0]) && body[0] != '\n')
    ensures T < |s| && !IsWordChar(s[T])
    ensures (J == T + 1 && s[T] == '\n') || (J == T && s[T] != '\n')
  {
    if newline {
      assert s[T] == s[T..J][0];
    } else if body != [] {
      assert s[T] == s[J..Q][0];
    } else {
      assert s[T] == s[Q..Q + 3][0];
    }
  }

  lemma NoTickPrefix(s: string, b: nat, x: string)
    requires b <= |s| && s[..b] == x && '`' !in x
    ensures forall i :: 0 <= i < b ==> s[i] != '`'
  {
    forall i | 0 <= i < b ensures s[i] != '`' {
      assert s[i] == x[i];
    }
  }

  lemma NoTickSlice(s: string, a: nat, b: nat, x: string)
    requires a <= b <= |s| && s[a..b] == x && '`' !in x
    ensures forall i :: a <= i < b ==> s[i] != '`'
  {
    forall i | a <= i < b ensures s[i] != '`' {
      assert s[i] == x[i - a];
    }
  }

  lemma WordSlice(s: string, a: nat, b: nat, x: string)
    requires a <= b <= |s| && s[a..b] == x
    requires forall i :: 0 <= i < |x| ==> IsWordChar(x[i])
    ensures forall i :: a <= i < b ==> IsWordChar(s[i])
  {
    forall i | a <= i < b ensures IsWordChar(s[i]) {
      assert s[i] == x[i - a];
    }
  }

  lemma FenceSlice(s: string, a: nat)
    requires a + 3 <= |s| && s[a..a + 3] == "```"
    ensures FenceAt(s, a)
  {
    assert s[a] == s[a..a + 3][0] && s[a + 1] == s[a..a + 3][1] && s[a + 2] == s[a..a + 3][2];
  }

  lemma NoFenceIn(s: string, from: nat)
    requires forall i :: from <= i < |s| ==> s[i] != '`'
    ensures FirstMatch(s, from).None?
  {
  }

  /** A message holding one fenced block renders as the prose before it,
      the trimmed body as code, then the prose after it; the opening fence,
      the language tag and the line feed after it appear nowhere. */
  lemma OneFenceParse(pre: string, tag: string, newline: bool, body: string, post: string)
    requires WellSeparated(pre, tag, newline, body, post)
    ensures Parse(OneFence(pre, tag, newline, body, post)) == Prose(pre) + Fenced(body) + Prose(post)
  {
    var s := OneFence(pre, tag, newline, body, post);
    OneFenceMatch(pre, tag, newline, body, post);
    ParseOneMatch(s, FirstMatch(s, 0).value, pre, body, post);
  }

  /** A message in which the pattern matches once, with no backtick after
      the match, renders as the prose before, the code, the prose after. */
  lemma ParseOneMatch(s: string, m: Match, pre: string, body: string, post: string)
    requires FirstMatch(s, 0) == Some(m)
    requires s[..m.index] == pre && s[m.bodyStart..m.close] == body && s[m.End()..] == post
    requires '`' !in post
    ensures Parse(s) == Prose(pre) + Fenced(body) + Prose(post)
  {
    RawPartsOneMatch(s, m);
    KeepNonEmptyAppend(MatchSpans(s, 0, m), TailSpans(s, m.End()));
    KeepMatchSpans(s, 0, m);
    KeepTail(s, m.End());
    assert s[0..m.index] == pre;
  }

  /** With no backtick after the only match, the loop runs once. */
  lemma RawPartsOneMatch(s: string, m: Match)
    requires FirstMatch(s, 0) == Some(m)
    requires '`' !in s[m.End()..]
    ensures RawParts(s, 0) == MatchSpans(s, 0, m) + TailSpans(s, m.End())
  {
    var e := m.End();
    forall i | e <= i < |s| ensures s[i] != '`' {
      assert s[i] == s[e..][i - e];
    }
    NoFenceIn(s, e);
  }

  /** Filtering one singleton keeps it exactly when its content is non-empty. */
  lemma KeepOne(sp: Span)
    ensures KeepNonEmpty([sp]) == if sp.content == [] then [] else [sp]
  {
    assert [sp][0] == sp && [sp][1..] == [];
  }

  /** The spans of one match, filtered: its prose, then its code. */
  lemma KeepMatchSpans(s: string, last: nat, m: Match)
    requires last <= m.index <= m.bodyStart <= m.close <= |s|
    ensures KeepNonEmpty(MatchSpans(s, last, m)) == Prose(s[last..m.index]) + Fenced(s[m.bodyStart..m.close])
  {
    var code := Span(Code, Trim(s[m.bodyStart..m.close]));
    KeepOne(code);
    if m.index > last {
      var lead := Span(Text, Trim(s[last..m.index]));
      assert MatchSpans(s, last, m) == [lead] + [code];
      KeepNonEmptyAppend([lead], [code]);
      KeepOne(lead);
    } else {
      assert s[last..m.index] == [];
      TrimmedIsFixed([]);
      assert Prose(s[last..m.index]) == [];
    }
  }

  /** The span pushed after the loop, filtered, is the prose of the rest. */
  lemma KeepTail(s: string, e: nat)
    requires e <= |s|
    ensures KeepNonEmpty(TailSpans(s, e)) == Prose(s[e..])
  {
    if e < |s| {
      KeepOne(Span(Text, Trim(s[e..])));
    } else {
      assert s[e..] == [];
      TrimmedIsFixed([]);
    }
  }

  /** The language tag and the line feed after it never reach the code:
      "```" + tag + "\n" + code + "\n```" renders as the one code span
      `code`, as "```js\nconsole.log(1)\n```" renders as "console.log(1)". */
  lemma TagAndNewlineDropped(tag: string, code: string)
    requires forall i :: 0 <= i < |tag| ==> IsWordChar(tag[i])
    requires code != [] && IsTrimmed(code) && '`' !in code
    ensures Parse(OneFence([], tag, true, code + "\n", [])) == [Span(Code, code)]
  {
    var body := code + "\n";
    assert Trim(body) == code by {
      assert body == [] + code + "\n";
      TrimUnique([], code, "\n");
    }
    TrimmedIsFixed([]);
    assert '`' !in body by {
      forall i | 0 <= i < |body| ensures body[i] != '`' {
        if i < |code| {
          assert body[i] == code[i];
        }
      }
    }
    assert WellSeparated([], tag, true, body, []);
    OneFenceParse([], tag, true, body, []);
    assert Prose([]) == [] && Fenced(body) == [Span(Code, code)];
  }

  /** Because the tag is greedy, a body made only of word characters is
      read as the tag and the block is empty: "```code```" renders as
      nothing. */
  lemma WordBodySwallowed()
    ensures Parse("```code```") == []
  {
    assert "```code```" == OneFence("", "code", false, "", "");
    OneFenceParse("", "code", false, "", "");
    TrimmedIsFixed([]);
  }

  /** ... and between two stretches of prose only the prose remains:
      `before + " ```" + word + "``` " + after` renders as the two text spans
      `before` and `after` with no code span between them, as
      "pre ```x``` post" renders as "pre" and "post". */
  lemma WordBodySwallowedBetweenProse(before: string, word: string, after: string)
    requires before != [] && IsTrimmed(before) && '`' !in before
    requires after != [] && IsTrimmed(after) && '`' !in after
    requires forall i :: 0 <= i < |word| ==> IsWordChar(word[i])
    ensures Parse(OneFence(before + " ", word, false, [], " " + after))
            == [Span(Text, before), Span(Text, after)]
  {
    PaddedPair(before, after);
    SwallowedBlock(before + " ", word, " " + after);
  }

  /** The prose on either side of the block in `WordBodySwallowedBetweenProse`. */
  lemma PaddedPair(before: string, after: string)
    requires before != [] && IsTrimmed(before) && '`' !in before
    requires after != [] && IsTrimmed(after) && '`' !in after
    ensures Prose(before + " ") + Prose(" " + after) == [Span(Text, before), Span(Text, after)]
    ensures '`' !in before + " " && '`' !in " " + after
  {
    ProseSpaceAfter(before);
    ProseSpaceBefore(after);
    NoTickConcat(before, " ");
    NoTickConcat(" ", after);
  }

  lemma ProseSpaceAfter(core: string)
    requires IsTrimmed(core) && core != []
    ensures Prose(core + " ") == [Span(Text, core)]
  {
    assert [] + core + " " == core + " ";
    PaddedProse([], core, " ");
  }

  lemma ProseSpaceBefore(core: string)
    requires IsTrimmed(core) && core != []
    ensures Prose(" " + core) == [Span(Text, core)]
  {
    assert " " + core + [] == " " + core;
    PaddedProse(" ", core, []);
  }

  /** A block whose opening fence is followed directly by a word and the
      closing fence renders as nothing; only the prose around it remains. */
  lemma SwallowedBlock(pre: string, word: string, post: string)
    requires WellSeparated(pre, word, false, [], post)
    ensures Parse(OneFence(pre, word, false, [], post)) == Prose(pre) + Prose(post)
  {
    OneFenceParse(pre, word, false, [], post);
    TrimmedIsFixed([]);
    assert Fenced([]) == [];
    assert Prose(pre) + [] == Prose(pre);
  }

  lemma NoTickConcat(x: string, y: string)
    requires '`' !in x && '`' !in y
    ensures '`' !in x + y
  {
    forall i | 0 <= i < |x + y| ensures (x + y)[i] != '`' {
      if i < |x| {
        assert (x + y)[i] == x[i];
      } else {
        assert (x + y)[i] == y[i - |x|];
      }
    }
  }

  /** The JavaScript block of the chat's own replies:
      "```js\nconsole.log(1)\n```" renders as the code span "console.log(1)". */
  lemma JsBlockExample()
    ensures Parse("```js\nconsole.log(1)\n```") == [Span(Code, "console.log(1)")]
  {
    assert "```js\nconsole.log(1)\n```" == OneFence([], "js", true, "console.log(1)" + "\n", []);
    TagAndNewlineDropped("js", "console.log(1)");
  }

  /** "pre ```x``` post" renders as the text spans "pre" and "post". */
  lemma PreWordPostExample()
    ensures Parse("pre ```x``` post") == [Span(Text, "pre"), Span(Text, "post")]
  {
    assert "pre ```x``` post" == OneFence("pre" + " ", "x", false, [], " " + "post");
    WordBodySwallowedBetweenProse("pre", "x", "post");
  }

  /** Prose that is a non-empty trimmed core padded with whitespace renders
      as that core. */
  lemma PaddedProse(left: string, core: string, right: string)
    requires AllWhitespace(left) && AllWhitespace(right) && IsTrimmed(core) && core != []
    ensures Prose(left + core + right) == [Span(Text, core)]
  {
    TrimUnique(left, core, right);
  }

  /** A block that holds only whitespace renders as nothing: "``` ``` ". */
  lemma BlankBlockDropped()
    ensures Parse("``` ``` ") == []
  {
    assert "``` ``` " == OneFence("", "", false, " ", " ");
    OneFenceParse("", "", false, " ", " ");
    assert " " == " " + [] + [];
    TrimUnique(" ", [], []);
    TrimmedIsFixed([]);
  }

  /** A message that is an opening fence followed by text without a
      backtick is plain text: one text span, the message itself when it is
      already trimmed. */
  lemma LoneFenceParse(s: string, rest: string)
    requires s == "```" + rest && '`' !in rest
    ensures Parse(s) == Prose(s)
    ensures IsTrimmed(s) ==> Parse(s) == [Span(Text, s)]
  {
    assert s[0] == '`' && s[1] == '`' && s[2] == '`';
    assert FindFence(s, 0) == Some(0);
    forall i | 3 <= i < |s| ensures s[i] != '`' {
      assert s[i] == rest[i - 3];
    }
    assert FindFence(s, BodyStart(s, 0)).None?;
    UnterminatedParse(s, 0);
    if IsTrimmed(s) {
      TrimmedIsFixed(s);
    }
  }

  /** "``` unterminated" renders as itself, one text span. */
  lemma UnterminatedExample()
    ensures Parse("```" + " unterminated") == [Span(Text, "```" + " unterminated")]
  {
    LoneFenceParse("```" + " unterminated", " unterminated");
  }

  /** Re-parsing the content of a text span that holds no fence gives back
      that span alone. */
  lemma TextSpanReparses(text: string, sp: Span)
    requires sp in Parse(text) && sp.kind == Text
    requires forall i :: !FenceAt(sp.content, i)
    ensures Parse(sp.content) == [sp]
  {
    ParseSpansTrimmedNonEmpty(text);
    NoFenceParse(sp.content);
    TrimmedIsFixed(sp.content);
  }

  // ---------------------------------------------------------------------
  // Spans appear in the order of the message

  /** The contents of `spans` occur in `s[from..to]` one after the other,
      left to right and without overlapping. */
  ghost predicate InOrder(spans: seq<Span>, s: string, from: nat, to: nat)
    decreases |spans|
  {
    from <= to <= |s|
    && (spans != [] ==>
          exists a: nat :: from <= a && OccursAt(s, a, spans[0].content)
                           && a + |spans[0].content| <= to
                           && InOrder(spans[1..], s, a + |spans[0].content|, to))
  }

  /** `c` occurs in `s` at position `a`. */
  predicate OccursAt(s: string, a: nat, c: string) {
    a + |c| <= |s| && s[a..a + |c|] == c
  }

  lemma InOrderWiden(spans: seq<Span>, s: string, from: nat, from': nat, to: nat)
    requires InOrder(spans, s, from, to) && from' <= from
    ensures InOrder(spans, s, from', to)
  {
  }

  lemma {:induction false} InOrderAppend(a: seq<Span>, b: seq<Span>, s: string, f: nat, g: nat, h: nat)
    requires InOrder(a, s, f, g) && InOrder(b, s, g, h)
    ensures InOrder(a + b, s, f, h)
    decreases |a|
  {
    if a == [] {
      assert a + b == b;
      InOrderWiden(b, s, g, f, h);
    } else {
      var c := a[0].content;
      var k := InOrderHead(a, s, f, g);
      InOrderAppend(a[1..], b, s, k + |c|, g, h);
      InOrderCons(a[0], a[1..] + b, s, f, k, h);
      assert a == [a[0]] + a[1..];
      ConcatAssoc([a[0]], a[1..], b);
    }
  }

  /** Where the first of a non-empty run of ordered spans sits. */
  lemma InOrderHead(spans: seq<Span>, s: string, from: nat, to: nat) returns (k: nat)
    requires spans != [] && InOrder(spans, s, from, to)
    ensures from <= k && OccursAt(s, k, spans[0].content) && k + |spans[0].content| <= to
    ensures InOrder(spans[1..], s, k + |spans[0].content|, to)
  {
    var c := spans[0].content;
    k :| from <= k && OccursAt(s, k, c) && k + |c| <= to && InOrder(spans[1..], s, k + |c|, to);
  }

  /** A span placed at `k`, followed by spans in order after it. */
  lemma InOrderCons(sp: Span, rest: seq<Span>, s: string, from: nat, k: nat, to: nat)
    requires from <= k && OccursAt(s, k, sp.content) && k + |sp.content| <= to
    requires InOrder(rest, s, k + |sp.content|, to)
    ensures InOrder([sp] + rest, s, from, to)
  {
    var r := [sp] + rest;
    assert r[0] == sp && r[1..] == rest;
  }

  lemma {:induction false} InOrderFilter(spans: seq<Span>, s: string, from: nat, to: nat)
    requires InOrder(spans, s, from, to)
    ensures InOrder(KeepNonEmpty(spans), s, from, to)
    decreases |spans|
  {
    if spans != [] {
      var c := spans[0].content;
      var k := InOrderHead(spans, s, from, to);
      InOrderFilter(spans[1..], s, k + |c|, to);
      if c == [] {
        InOrderWiden(KeepNonEmpty(spans[1..]), s, k + |c|, from, to);
      } else {
        InOrderCons(spans[0], KeepNonEmpty(spans[1..]), s, from, k, to);
      }
    }
  }

  /** The trimmed slice `s[lo..hi]` as one span sits in order inside it. */
  lemma TrimmedSliceInOrder(s: string, lo: nat, hi: nat, kind: Kind)
    requires lo <= hi <= |s|
    ensures InOrder([Span(kind, Trim(s[lo..hi]))], s, lo, hi)
  {
    var k := TrimmedSliceAt(s, lo, hi);
    SingleInOrder(Span(kind, Trim(s[lo..hi])), s, k, lo, hi);
  }

  /** Where the trimmed slice `s[lo..hi]` sits in `s`. */
  lemma TrimmedSliceAt(s: string, lo: nat, hi: nat) returns (k: nat)
    requires lo <= hi <= |s|
    ensures lo <= k && k + |Trim(s[lo..hi])| <= hi && OccursAt(s, k, Trim(s[lo..hi]))
  {
    var t := s[lo..hi];
    var r := Trim(t);
    var j := TrimIsSlice(t);
    SliceOfSlice(s, lo, hi, j, j + |r|);
    k := lo + j;
    assert s[k..k + |r|] == t[j..j + |r|] == r;
  }

  lemma SliceOfSlice(s: string, lo: nat, hi: nat, a: nat, b: nat)
    requires lo <= hi <= |s| && a <= b <= hi - lo
    ensures s[lo..hi][a..b] == s[lo + a..lo + b]
  {
    forall i | 0 <= i < b - a
      ensures s[lo..hi][a..b][i] == s[lo + a..lo + b][i]
    {
      assert s[lo..hi][a..b][i] == s[lo..hi][a + i] == s[lo + a + i];
    }
  }

  lemma SingleInOrder(sp: Span, s: string, a: nat, lo: nat, hi: nat)
    requires lo <= a && a + |sp.content| <= hi <= |s| && OccursAt(s, a, sp.content)
    ensures InOrder([sp], s, lo, hi)
  {
    assert [sp][0] == sp && [sp][1..] == [];
    assert OccursAt(s, a, [sp][0].content);
    assert InOrder([sp][1..], s, a + |sp.content|, hi);
  }

  lemma MatchSpansInOrder(s: string, last: nat, m: Match)
    requires last <= m.index && m.index + 3 <= m.bodyStart <= m.close && m.End() <= |s|
    ensures InOrder(MatchSpans(s, last, m), s, last, m.End())
  {
    var code := [Span(Code, Trim(s[m.bodyStart..m.close]))];
    TrimmedSliceInOrder(s, m.bodyStart, m.close, Code);
    InOrderWiden(code, s, m.bodyStart, m.index, m.close);
    InOrderExtend(code, s, m.index, m.close, m.End());
    if m.index > last {
      var lead := [Span(Text, Trim(s[last..m.index]))];
      TrimmedSliceInOrder(s, last, m.index, Text);
      InOrderAppend(lead, code, s, last, m.index, m.End());
      assert MatchSpans(s, last, m) == lead + code;
    } else {
      InOrderWiden(code, s, m.index, last, m.End());
    }
  }

  lemma {:induction false} InOrderExtend(spans: seq<Span>, s: string, from: nat, to: nat, to': nat)
    requires InOrder(spans, s, from, to) && to <= to' <= |s|
    ensures InOrder(spans, s, from, to')
    decreases |spans|
  {
    if spans != [] {
      var c := spans[0].content;
      var k := InOrderHead(spans, s, from, to);
      InOrderExtend(spans[1..], s, k + |c|, to, to');
    }
  }

  lemma {:induction false} RawPartsInOrder(s: string, last: nat)
    requires last <= |s|
    ensures InOrder(RawParts(s, last), s, last, |s|)
    decreases |s| - last
  {
    match FirstMatch(s, last)
    case None =>
      if last < |s| {
        TrimmedSliceInOrder(s, last, |s|, Text);
        assert s[last..|s|] == s[last..];
      }
    case Some(m) =>
      RawPartsInOrder(s, m.End());
      MatchSpansInOrder(s, last, m);
      InOrderAppend(MatchSpans(s, last, m), RawParts(s, m.End()), s, last, m.End(), |s|);
  }

  /** The spans the parser returns appear in the message in the same order,
      without overlapping: the scan is left to right. */
  lemma ParseInOrder(text: string)
    ensures InOrder(Parse(text), text, 0, |text|)
  {
    RawPartsInOrder(text, 0);
    InOrderFilter(RawParts(text, 0), text, 0, |text|);
  }
}
