/** The fixed pattern /```(?:\w+)?\n?([\s\S]*?)```/g of parseMessageContent,
    by its concrete semantics: where it matches, where its capture group
    starts and ends, and what `regex.exec` returns from a given `lastIndex`. */
module FencePattern {

  datatype Option<T> = None | Some(value: T)

  /** One match of the pattern: it starts at `index`, its capture group
      (the code body) is `s[bodyStart..close]`, and the closing fence
      occupies `s[close..close + 3]`. */
  datatype Match = Match(index: nat, bodyStart: nat, close: nat) {
    /** The value `regex.lastIndex` takes after this match. */
    function End(): nat { close + 3 }
  }

  /** Three backticks start at position `i`. */
  predicate FenceAt(s: string, i: nat) {
    i + 3 <= |s| && s[i] == '`' && s[i + 1] == '`' && s[i + 2] == '`'
  }

  /** `\w` without the `u` flag: ASCII letters, digits and underscore. */
  predicate IsWordChar(c: char) {
    ('A' <= c <= 'Z') || ('a' <= c <= 'z') || ('0' <= c <= '9') || c == '_'
  }

  /** Where the greedy `(?:\w+)?` stops when it starts at `k`: the first
      position at or after `k` that does not hold a word character. */
  function TagEnd(s: string, k: nat): (r: nat)
    requires k <= |s|
    ensures k <= r <= |s|
    ensures forall i :: k <= i < r ==> IsWordChar(s[i])
    ensures r == |s| || !IsWordChar(s[r])
    decreases |s| - k
  {
    if k < |s| && IsWordChar(s[k]) then TagEnd(s, k + 1) else k
  }

  /** After the opening fence at `p`, `s[p + 3..j]` is read by
      `(?:\w+)?\n?` with the tag ending at `t`: word characters on
      `[p + 3, t)`, then the line feed at `t` or nothing. */
  predicate TagParse(s: string, p: nat, t: nat, j: nat) {
    p + 3 <= t <= j <= |s|
    && (forall i :: p + 3 <= i < t ==> IsWordChar(s[i]))
    && (j == t || (j == t + 1 && s[t] == '\n'))
  }

  /** Where the capture group starts for an opening fence at `p`: after the
      longest language tag and, if one follows it, one line feed. It ends a
      parse of `(?:\w+)?\n?` from `p + 3`, and no such parse ends later. */
  function BodyStart(s: string, p: nat): (j: nat)
    requires FenceAt(s, p)
    ensures p + 3 <= j <= |s|
    ensures forall i :: p + 3 <= i < j ==> s[i] != '`'
    ensures exists t: nat :: TagParse(s, p, t, j)
    ensures forall t: nat, j': nat :: TagParse(s, p, t, j') ==> j' <= j
  {
    var t := TagEnd(s, p + 3);
    assert TagParse(s, p, t, if t < |s| && s[t] == '\n' then t + 1 else t);
    if t < |s| && s[t] == '\n' then t + 1 else t
  }

  /** The first fence at or after `from`, as a left-to-right search for
      "```" finds it. */
  function FindFence(s: string, from: nat): (r: Option<nat>)
    ensures r.Some? ==> from <= r.value && FenceAt(s, r.value)
    ensures r.Some? ==> forall i :: from <= i < r.value ==> !FenceAt(s, i)
    ensures r.None? ==> forall i :: from <= i ==> !FenceAt(s, i)
    decreases |s| - from
  {
    if from + 3 > |s| then None
    else if FenceAt(s, from) then Some(from)
    else FindFence(s, from + 1)
  }

  /** Any way the pattern can match at `p` with its capture group being
      `s[j..q]`: a fence at `p`, word characters on `[p + 3, t)`, then an
      optional line feed ending at `j`, any body, a fence at `q`. The
      engine's backtracking prefers a longer tag, then the line feed taken,
      then a shorter body: the largest `j`, then the smallest `q`. */
  predicate Candidate(s: string, p: nat, t: nat, j: nat, q: nat) {
    FenceAt(s, p) && p + 3 <= t <= j <= q && FenceAt(s, q)
    && (forall i :: p + 3 <= i < t ==> IsWordChar(s[i]))
    && (j == t || (j == t + 1 && s[t] == '\n'))
  }

  /** The match the regex engine reports when it tries position `p`: the
      tag as long as possible, the optional line feed taken, and the
      lazy body ending at the first closing fence. `None` when that attempt
      fails; `RegexPreference` shows that no other parse exists then. */
  function MatchAt(s: string, p: nat): (r: Option<Match>)
    ensures r.Some? ==> r.value.index == p && FenceAt(s, p) && FenceAt(s, r.value.close)
    ensures r.Some? ==> p + 3 <= r.value.bodyStart <= r.value.close
    ensures r.Some? ==> p + 6 <= r.value.End() <= |s|
    ensures r.Some? ==> Candidate(s, p, TagEnd(s, p + 3), r.value.bodyStart, r.value.close)
  {
    if !FenceAt(s, p) then None
    else
      var j := BodyStart(s, p);
      match FindFence(s, j)
      case None => None
      case Some(q) => Some(Match(p, j, q))
  }

  /** The greedy attempt is the candidate the engine prefers, and when it
      fails there is no candidate at all: backtracking over the tag never
      finds a match the greedy attempt missed. */
  lemma RegexPreference(s: string, p: nat, t: nat, j: nat, q: nat)
    requires Candidate(s, p, t, j, q)
    ensures MatchAt(s, p).Some?
    ensures j <= MatchAt(s, p).value.bodyStart
    ensures j == MatchAt(s, p).value.bodyStart ==> MatchAt(s, p).value.close <= q
  {
    assert t <= TagEnd(s, p + 3);
    assert j <= BodyStart(s, p);
  }

  /** An opening fence with no closing fence after its body start: the
      pattern matches nowhere from that fence on, four or more backticks
      included. */
  lemma {:induction false} NoCloseNoLaterMatch(s: string, p: nat, p': nat)
    requires FenceAt(s, p) && FindFence(s, BodyStart(s, p)).None?
    requires p <= p'
    ensures MatchAt(s, p').None?
  {
    var bs := BodyStart(s, p);
    if FenceAt(s, p') && p' != p {
      if p' < p + 3 {
        assert s[p + 3] == '`';
        assert TagEnd(s, p + 3) == p + 3;
        assert bs == p + 3;
      }
      assert bs <= BodyStart(s, p');
    }
  }

  /** `regex.exec(text)` with `regex.lastIndex == from`: the leftmost match
      starting at or after `from`, or `None`. */
  function FirstMatch(s: string, from: nat): (r: Option<Match>)
    ensures r.Some? ==> from <= r.value.index && MatchAt(s, r.value.index) == r
    ensures r.Some? ==> forall p :: from <= p < r.value.index ==> MatchAt(s, p).None?
    ensures r.None? ==> forall p :: from <= p ==> MatchAt(s, p).None?
    decreases |s| - from
  {
    if from >= |s| then None
    else match MatchAt(s, from)
      case Some(m) => Some(m)
      case None => FirstMatch(s, from + 1)
  }
}
