/** Java's `String.trim` and the search-field guard built on it.

    `trim` advances a start index past every character whose code is at most
    U+0020 (space and all control characters), then pulls the end index back
    past the same characters, and returns what lies between. */
module JavaText {
  import opened Wrappers

  /** A character `String.trim` strips. */
  predicate IsBlank(c: char) {
    c <= ' '
  }

  predicate AllBlank(s: string) {
    forall i :: 0 <= i < |s| ==> IsBlank(s[i])
  }

  /** The first loop of `trim`: from `st`, the index of the first non-blank
      character, or `|s|` when there is none. */
  function SkipLeading(s: string, st: nat): (k: nat)
    requires st <= |s|
    ensures st <= k <= |s|
    ensures forall i :: st <= i < k ==> IsBlank(s[i])
    ensures k < |s| ==> !IsBlank(s[k])
    decreases |s| - st
  {
    if st < |s| && IsBlank(s[st]) then SkipLeading(s, st + 1) else st
  }

  /** The second loop of `trim`: pulls `len` back over blank characters,
      never below `st`. */
  function SkipTrailing(s: string, st: nat, len: nat): (k: nat)
    requires st <= len <= |s|
    ensures st <= k <= len
    ensures forall i :: k <= i < len ==> IsBlank(s[i])
    ensures st < k ==> !IsBlank(s[k - 1])
    decreases len
  {
    if st < len && IsBlank(s[len - 1]) then SkipTrailing(s, st, len - 1) else len
  }

  /** `String.trim`: empty exactly when `s` is blank throughout, and
      otherwise bounded by non-blank characters on both sides. */
  function Trim(s: string): (r: string)
    ensures |r| <= |s|
    ensures r == [] <==> AllBlank(s)
    ensures r != [] ==> !IsBlank(r[0]) && !IsBlank(r[|r| - 1])
  {
    var st := SkipLeading(s, 0);
    var len := SkipTrailing(s, st, |s|);
    // An empty result means the first loop already ran off the end: a
    // non-blank at `st` would have stopped the second loop above it.
    assert len == st ==> st == |s|;
    s[st..len]
  }

  /** What `Trim` removed is a blank prefix and a blank suffix: `s` is
      `pre + Trim(s) + post` with both ends blank. */
  lemma TrimDecomposes(s: string) returns (pre: string, post: string)
    ensures s == pre + Trim(s) + post
    ensures AllBlank(pre) && AllBlank(post)
  {
    var st := SkipLeading(s, 0);
    var len := SkipTrailing(s, st, |s|);
    pre, post := s[..st], s[len..];
    assert s == s[..st] + s[st..len] + s[len..];
  }

  /** The converse: trimming any blank-padded text whose middle starts and
      ends with a non-blank (or is empty) gives back exactly that middle. */
  lemma TrimStripsExactlyBlankEnds(pre: string, mid: string, post: string)
    requires AllBlank(pre) && AllBlank(post)
    requires mid != [] ==> !IsBlank(mid[0]) && !IsBlank(mid[|mid| - 1])
    ensures Trim(pre + mid + post) == mid
  {
    var s := pre + mid + post;
    if mid == [] {
      assert AllBlank(s) by {
        forall i | 0 <= i < |s|
          ensures IsBlank(s[i])
        {
          if i < |pre| {
            assert s[i] == pre[i];
          } else {
            assert s[i] == post[i - |pre|];
          }
        }
      }
    } else {
      var a, b := |pre|, |pre| + |mid|;
      assert s[a] == mid[0];
      assert s[b - 1] == mid[|mid| - 1];
      assert forall i :: 0 <= i < a ==> s[i] == pre[i];
      assert forall i :: b <= i < |s| ==> s[i] == post[i - b];
      var st := SkipLeading(s, 0);
      assert st == a;
      var len := SkipTrailing(s, st, |s|);
      assert len == b;
      assert s[a..b] == mid;
    }
  }

  /** Text with no blank at either end is its own trimmed form. */
  lemma KeyTrimsToItself(key: string)
    requires key != [] && !IsBlank(key[0]) && !IsBlank(key[|key| - 1])
    ensures Trim(key) == key
  {
    assert key == [] + key + [];
    TrimStripsExactlyBlankEnds([], key, []);
  }

  /** Trimming twice is trimming once. */
  lemma TrimIdempotent(s: string)
    ensures Trim(Trim(s)) == Trim(s)
  {
    var t := Trim(s);
    if t != [] {
      KeyTrimsToItself(t);
    }
  }

  /** The guard of the bill and delete buttons: the trimmed search text,
      or `None` when nothing but blanks was typed. */
  function Query(raw: string): (q: Option<string>)
    ensures q.None? <==> AllBlank(raw)
    ensures q.Some? ==> q.value != [] && !IsBlank(q.value[0]) && !IsBlank(q.value[|q.value| - 1])
  {
    var t := Trim(raw);
    if t == [] then None else Some(t)
  }

  /** A query typed with surrounding blanks finds the same key as the bare
      key: padding the search text never changes what is searched for. */
  lemma QueryIgnoresPadding(pre: string, key: string, post: string)
    requires AllBlank(pre) && AllBlank(post)
    requires key != [] && !IsBlank(key[0]) && !IsBlank(key[|key| - 1])
    ensures Query(pre + key + post) == Some(key)
  {
    TrimStripsExactlyBlankEnds(pre, key, post);
  }
}
