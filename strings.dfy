/**
 * The few operations on Python `str` values that the tournament and chat
 * code relies on: `strip()`, the substring test `a in b`, `startswith`
 * and `split(" ")`. Strings are sequences of Unicode scalar values.
 */
module PyStrings {

  /** The characters `str.strip()` removes: those for which `str.isspace()` holds. */
  predicate IsSpace(c: char) {
    var n := c as int;
    n == 0x20 || 0x09 <= n <= 0x0D || 0x1C <= n <= 0x1F || n == 0x85 || n == 0xA0
    || n == 0x1680 || 0x2000 <= n <= 0x200A || n == 0x2028 || n == 0x2029
    || n == 0x202F || n == 0x205F || n == 0x3000
  }

  predicate AllSpace(s: string) {
    forall k :: 0 <= k < |s| ==> IsSpace(s[k])
  }

  /** The first position at or after `i` that does not hold whitespace. */
  function SkipSpaces(s: string, i: nat): (k: nat)
    requires i <= |s|
    ensures i <= k <= |s|
    ensures forall m :: i <= m < k ==> IsSpace(s[m])
    ensures k == |s| || !IsSpace(s[k])
    decreases |s| - i
  {
    if i < |s| && IsSpace(s[i]) then SkipSpaces(s, i + 1) else i
  }

  /** The end of `s[lo..j]` once its trailing whitespace is cut. */
  function BackSpaces(s: string, lo: nat, j: nat): (k: nat)
    requires lo <= j <= |s|
    ensures lo <= k <= j
    ensures forall m :: k <= m < j ==> IsSpace(s[m])
    ensures k == lo || !IsSpace(s[k - 1])
  {
    if lo < j && IsSpace(s[j - 1]) then BackSpaces(s, lo, j - 1) else j
  }

  /** `s.strip()`: drop leading and trailing whitespace. */
  function Strip(s: string): string {
    var i := SkipSpaces(s, 0);
    s[i..BackSpaces(s, i, |s|)]
  }

  /**
   * What `strip()` cuts is whitespace, from the two ends only, and what it
   * keeps neither starts nor ends with whitespace.
   */
  lemma StripSpec(s: string) returns (i: nat, j: nat)
    ensures i <= j <= |s| && Strip(s) == s[i..j]
    ensures forall k :: 0 <= k < i ==> IsSpace(s[k])
    ensures forall k :: j <= k < |s| ==> IsSpace(s[k])
    ensures i < j ==> !IsSpace(s[i]) && !IsSpace(s[j - 1])
  {
    i := SkipSpaces(s, 0);
    j := BackSpaces(s, i, |s|);
  }

  /** Stripping twice is stripping once. */
  lemma StripIdempotent(s: string)
    ensures Strip(Strip(s)) == Strip(s)
  {
    var i, j := StripSpec(s);
    var r := Strip(s);
    if r != [] {
      assert r[0] == s[i] && r[|r| - 1] == s[j - 1];
      assert SkipSpaces(r, 0) == 0;
      assert BackSpaces(r, 0, |r|) == |r|;
    }
    assert r[0..|r|] == r;
  }

  /** `s.strip()` is empty exactly when `s` is made only of whitespace. */
  lemma StripEmptyIff(s: string)
    ensures Strip(s) == "" <==> AllSpace(s)
  {
    var i, j := StripSpec(s);
    if Strip(s) == "" {
      assert forall k :: 0 <= k < |s| ==> IsSpace(s[k]);
    }
  }

  /** Python's `needle in hay` for two strings: a substring test. */
  predicate Contains(hay: string, needle: string)
    decreases |hay|
  {
    |needle| <= |hay| && (needle == hay[..|needle|] || Contains(hay[1..], needle))
  }

  /** The substring test agrees with "occurs at some offset". */
  lemma {:induction false} ContainsIff(hay: string, needle: string)
    ensures Contains(hay, needle) <==> exists i :: 0 <= i <= |hay| && needle <= hay[i..]
    decreases |hay|
  {
    if |needle| <= |hay| {
      if needle == hay[..|needle|] {
        assert needle <= hay[0..];
      } else {
        ContainsIff(hay[1..], needle);
        if Contains(hay[1..], needle) {
          var i :| 0 <= i <= |hay| - 1 && needle <= hay[1..][i..];
          assert hay[1..][i..] == hay[i + 1..];
        }
        if exists i :: 0 <= i <= |hay| && needle <= hay[i..] {
          var i :| 0 <= i <= |hay| && needle <= hay[i..];
          assert i != 0;
          assert hay[1..][i - 1..] == hay[i..];
        }
      }
    } else {
      forall i | 0 <= i <= |hay| ensures !(needle <= hay[i..]) {
      }
    }
  }

  /** The empty string is a substring of every string. */
  lemma {:induction false} EmptyIsContained(hay: string)
    ensures Contains(hay, "")
  {
    ContainsIff(hay, "");
    assert "" <= hay[0..];
  }

  /** Every string contains itself. */
  lemma ContainsSelf(s: string)
    ensures Contains(s, s)
  {
  }

  predicate StartsWith(s: string, prefix: string) {
    prefix <= s
  }

  /** `" ".join(words)`, written for any separator. */
  function Join(words: seq<string>, sep: char): string
    requires |words| >= 1
  {
    if |words| == 1 then words[0] else words[0] + [sep] + Join(words[1..], sep)
  }

  /**
   * `s.split(sep)` for a one-character separator: cut at every occurrence,
   * keeping the empty pieces that adjacent or outer separators produce.
   */
  function Split(s: string, sep: char): (words: seq<string>)
    ensures |words| >= 1
    ensures forall k :: 0 <= k < |words| ==> sep !in words[k]
    ensures Join(words, sep) == s
  {
    if s == [] then [""]
    else if s[0] == sep then
      var rest := Split(s[1..], sep);
      assert [""] + rest == [""] + rest;
      assert ([""] + rest)[1..] == rest;
      assert s == [] + [sep] + s[1..];
      [""] + rest
    else
      var rest := Split(s[1..], sep);
      var words := [[s[0]] + rest[0]] + rest[1..];
      assert Join(words, sep) == s by {
        if |rest| == 1 {
          assert s == [s[0]] + s[1..];
        } else {
          assert words[1..] == rest[1..];
          assert Join(rest, sep) == rest[0] + [sep] + Join(rest[1..], sep);
          assert s == [s[0]] + s[1..];
        }
      }
      words
  }

  /** There is only one way to cut a string at its separators: splitting a join gives the words back. */
  lemma {:induction false} SplitJoin(words: seq<string>, sep: char)
    requires |words| >= 1
    requires forall k :: 0 <= k < |words| ==> sep !in words[k]
    ensures Split(Join(words, sep), sep) == words
    decreases |words|, |words[0]|
  {
    if |words| == 1 {
      SplitWord(words[0], sep);
    } else if words[0] == [] {
      var s := Join(words, sep);
      assert s == [sep] + Join(words[1..], sep);
      assert s[1..] == Join(words[1..], sep);
      SplitJoin(words[1..], sep);
      assert words == [""] + words[1..];
    } else {
      var s := Join(words, sep);
      var w0 := words[0];
      var shorter := [w0[1..]] + words[1..];
      assert shorter[1..] == words[1..];
      assert forall k :: 0 <= k < |shorter| ==> sep !in shorter[k] by {
        forall k | 0 <= k < |shorter| ensures sep !in shorter[k] {
          if k == 0 { assert forall c :: c in w0[1..] ==> c in w0; } else { assert shorter[k] == words[k]; }
        }
      }
      assert Join(shorter, sep) == w0[1..] + [sep] + Join(words[1..], sep);
      assert s == [w0[0]] + Join(shorter, sep);
      assert s[0] == w0[0] && s[0] != sep;
      assert s[1..] == Join(shorter, sep);
      SplitJoin(shorter, sep);
      assert Split(s, sep) == [[s[0]] + shorter[0]] + shorter[1..];
      assert [w0[0]] + w0[1..] == w0;
      assert words == [w0] + words[1..];
    }
  }

  lemma {:induction false} SplitWord(w: string, sep: char)
    requires sep !in w
    ensures Split(w, sep) == [w]
    decreases |w|
  {
    if w != [] {
      assert forall c :: c in w[1..] ==> c in w;
      SplitWord(w[1..], sep);
      assert [w[0]] + w[1..] == w;
    }
  }

  /** The first word of `s.split(sep)` is everything before the first separator. */
  lemma {:induction false} SplitFirst(s: string, sep: char, i: nat)
    requires i <= |s| && sep !in s[..i] && (i == |s| || s[i] == sep)
    ensures Split(s, sep)[0] == s[..i]
    ensures (|Split(s, sep)| >= 2) == (i < |s|)
    decreases i
  {
    if i == 0 {
      if s != [] {
        assert s[0] == sep;
      }
    } else {
      assert s[0] == s[..i][0];
      assert s[1..][..i - 1] == s[..i][1..];
      assert forall c :: c in s[..i][1..] ==> c in s[..i];
      SplitFirst(s[1..], sep, i - 1);
      assert [s[0]] + s[1..][..i - 1] == s[..i];
    }
  }
}
