/**
 * Whitespace normalisation: `clean_text(text)` is `"".join(text.split())`.
 * `str.split()` with no argument cuts the string at runs of whitespace and drops
 * empty pieces; joining the pieces back with "" deletes every whitespace character.
 */
module Text {
  import opened Seqs

  /**
   * The characters for which Python's `str.isspace()` holds, i.e. those that
   * `str.split()` with no argument splits on. No proof below depends on
   * which characters these are.
   */
  predicate IsSpace(c: char)
  {
    var n := c as int;
    (0x09 <= n <= 0x0D) || (0x1C <= n <= 0x20) || n == 0x85 || n == 0xA0 || n == 0x1680
    || (0x2000 <= n <= 0x200A) || n == 0x2028 || n == 0x2029 || n == 0x202F || n == 0x205F
    || n == 0x3000
  }

  predicate NoSpace(s: string)
  {
    forall i :: 0 <= i < |s| ==> !IsSpace(s[i])
  }

  /** The length of the run of non-whitespace characters at the start of `s`. */
  function WordLength(s: string): (n: nat)
    ensures n <= |s|
    ensures NoSpace(s[..n])
    ensures n < |s| ==> IsSpace(s[n])
  {
    if s == [] || IsSpace(s[0]) then 0
    else
      var m := WordLength(s[1..]);
      assert s[..m + 1] == [s[0]] + s[1..][..m];
      m + 1
  }

  /** Python's `s.split()`: the maximal runs of non-whitespace characters, in order. */
  function Words(s: string): (ws: seq<string>)
    ensures forall k :: 0 <= k < |ws| ==> ws[k] != [] && NoSpace(ws[k])
    decreases |s|
  {
    if s == [] then []
    else if IsSpace(s[0]) then Words(s[1..])
    else
      var n := WordLength(s);
      [s[..n]] + Words(s[n..])
  }

  /** `clean_text` (generate.py:219-220): the words of `s` joined with the empty string. */
  function CleanText(s: string): (r: string)
  {
    Concat(Words(s))
  }

  /** The reference definition: `s` with every whitespace character deleted. */
  function RemoveSpaces(s: string): (r: string)
  {
    if s == [] then []
    else RemoveSpaces(s[..|s| - 1]) + (if IsSpace(s[|s| - 1]) then [] else [s[|s| - 1]])
  }

  lemma {:induction false} RemoveSpacesAppend(a: string, b: string)
    ensures RemoveSpaces(a + b) == RemoveSpaces(a) + RemoveSpaces(b)
    decreases |b|
  {
    if b != [] {
      var b' := b[..|b| - 1];
      assert (a + b)[..|a + b| - 1] == a + b';
      RemoveSpacesAppend(a, b');
    } else {
      assert a + b == a;
    }
  }

  lemma {:induction false} RemoveSpacesOfNoSpace(s: string)
    requires NoSpace(s)
    ensures RemoveSpaces(s) == s
    decreases |s|
  {
    if s != [] {
      RemoveSpacesOfNoSpace(s[..|s| - 1]);
    }
  }

  /** Joining the words of `s` deletes exactly the whitespace of `s`, nothing else. */
  lemma {:induction false} CleanTextRemovesSpaces(s: string)
    ensures CleanText(s) == RemoveSpaces(s)
    decreases |s|
  {
    if s == [] {
    } else if IsSpace(s[0]) {
      CleanTextRemovesSpaces(s[1..]);
      RemoveSpacesAppend([s[0]], s[1..]);
      assert [s[0]] + s[1..] == s;
    } else {
      var n := WordLength(s);
      CleanTextRemovesSpaces(s[n..]);
      RemoveSpacesAppend(s[..n], s[n..]);
      RemoveSpacesOfNoSpace(s[..n]);
      assert s[..n] + s[n..] == s;
    }
  }

  lemma {:induction false} RemoveSpacesHasNoSpace(s: string)
    ensures NoSpace(RemoveSpaces(s))
    decreases |s|
  {
    if s != [] {
      RemoveSpacesHasNoSpace(s[..|s| - 1]);
    }
  }

  lemma {:induction false} RemoveSpacesIsSubsequence(s: string)
    ensures IsSubsequence(RemoveSpaces(s), s)
    decreases |s|
  {
    if s != [] {
      var init := s[..|s| - 1];
      RemoveSpacesIsSubsequence(init);
      var r := RemoveSpaces(s);
      if IsSpace(s[|s| - 1]) {
        assert r == RemoveSpaces(init);
        if r != [] {
          RemoveSpacesHasNoSpace(s);
          assert !IsSpace(r[|r| - 1]);
        }
      } else {
        assert r[..|r| - 1] == RemoveSpaces(init);
      }
    }
  }

  /** Every non-whitespace character of `s` is kept: they are exactly the characters of the result. */
  lemma {:induction false} RemoveSpacesMembers(s: string, c: char)
    ensures c in RemoveSpaces(s) <==> c in s && !IsSpace(c)
    decreases |s|
  {
    if s != [] {
      var init := s[..|s| - 1];
      RemoveSpacesMembers(init, c);
      assert s == init + [s[|s| - 1]];
    }
  }

  /**
   * `clean_text`'s promise: the result holds no whitespace, is the input's
   * non-whitespace characters in their original order (a subsequence that keeps
   * every one of them), and is unchanged exactly when the input had no whitespace.
   */
  lemma CleanTextSpec(s: string)
    ensures NoSpace(CleanText(s))
    ensures IsSubsequence(CleanText(s), s)
    ensures forall c :: c in CleanText(s) <==> c in s && !IsSpace(c)
    ensures CleanText(s) == s <==> NoSpace(s)
  {
    CleanTextRemovesSpaces(s);
    RemoveSpacesHasNoSpace(s);
    RemoveSpacesIsSubsequence(s);
    forall c ensures c in CleanText(s) <==> c in s && !IsSpace(c) {
      RemoveSpacesMembers(s, c);
    }
    if NoSpace(s) {
      RemoveSpacesOfNoSpace(s);
    }
  }

  /** Cleaning twice is cleaning once. */
  lemma CleanTextIdempotent(s: string)
    ensures CleanText(CleanText(s)) == CleanText(s)
  {
    CleanTextSpec(s);
    CleanTextSpec(CleanText(s));
  }

  /** Cleaning distributes over concatenation: the result does not depend on how text is laid out in pieces. */
  lemma CleanTextAppend(a: string, b: string)
    ensures CleanText(a + b) == CleanText(a) + CleanText(b)
  {
    CleanTextRemovesSpaces(a + b);
    CleanTextRemovesSpaces(a);
    CleanTextRemovesSpaces(b);
    RemoveSpacesAppend(a, b);
  }
}
