/** The parts of Python's `str` that the pipelines use: `<=`, `strip`, `split` and `join`. */
module Text {
  import opened Sequences

  /** `c.isspace()`: the characters `str.strip()` removes when given no argument. */
  predicate IsSpace(c: char)
  {
    c == ' ' || ('\t' <= c <= '\r') || ('\U{1C}' <= c <= '\U{1F}') ||
    c == '\U{85}' || c == '\U{A0}' || c == '\U{1680}' || ('\U{2000}' <= c <= '\U{200A}') ||
    c == '\U{2028}' || c == '\U{2029}' || c == '\U{202F}' || c == '\U{205F}' || c == '\U{3000}'
  }

  predicate AllSpace(s: string)
  {
    forall k :: 0 <= k < |s| ==> IsSpace(s[k])
  }

  /** Where `lstrip` stops: the first non-space at or after `i`, or the end. */
  function SpacesFrom(s: string, i: nat): (n: nat)
    requires i <= |s|
    ensures i <= n <= |s|
    ensures forall k :: i <= k < n ==> IsSpace(s[k])
    ensures n == |s| || !IsSpace(s[n])
    decreases |s| - i
  {
    if i < |s| && IsSpace(s[i]) then SpacesFrom(s, i + 1) else i
  }

  /** Where `rstrip` stops: just after the last non-space before `j`, or the start. */
  function SpacesBefore(s: string, j: nat): (n: nat)
    requires j <= |s|
    ensures n <= j
    ensures forall k :: n <= k < j ==> IsSpace(s[k])
    ensures n == 0 || !IsSpace(s[n - 1])
  {
    if j > 0 && IsSpace(s[j - 1]) then SpacesBefore(s, j - 1) else j
  }

  /** `SpacesFrom` is the only stop with spaces before it and no space at it. */
  lemma SpacesFromIs(s: string, i: nat, n: nat)
    requires i <= n <= |s|
    requires forall k :: i <= k < n ==> IsSpace(s[k])
    requires n == |s| || !IsSpace(s[n])
    ensures SpacesFrom(s, i) == n
  {
    var m := SpacesFrom(s, i);
    assert m >= n;
    assert m <= n;
  }

  /** `SpacesBefore` is the only stop with spaces after it and no space before it. */
  lemma SpacesBeforeIs(s: string, j: nat, n: nat)
    requires n <= j <= |s|
    requires forall k :: n <= k < j ==> IsSpace(s[k])
    requires n == 0 || !IsSpace(s[n - 1])
    ensures SpacesBefore(s, j) == n
  {
    var m := SpacesBefore(s, j);
    assert m >= n;
    assert m <= n;
  }

  /** `s.strip()`: a slice of `s`, framed by whitespace only, with no whitespace at either end. */
  function Strip(s: string): (r: string)
    ensures r == [] || (!IsSpace(r[0]) && !IsSpace(r[|r| - 1]))
    ensures exists i :: 0 <= i <= |s| - |r| && r == s[i..i + |r|] && AllSpace(s[..i]) && AllSpace(s[i + |r|..])
  {
    var i := SpacesFrom(s, 0);
    if i == |s| then
      assert AllSpace(s[..|s|]);
      []
    else
      var j := SpacesBefore(s, |s|);
      assert i < j;
      assert AllSpace(s[..i]) && AllSpace(s[j..]);
      s[i..j]
  }

  /** `strip` of text framed by whitespace gives back the core, whatever the margins. */
  lemma StripFramed(pre: string, core: string, post: string)
    requires AllSpace(pre) && AllSpace(post)
    requires core == [] || (!IsSpace(core[0]) && !IsSpace(core[|core| - 1]))
    ensures Strip(pre + core + post) == core
  {
    var s := pre + core + post;
    var a := |pre|;
    var b := |pre| + |core|;
    assert forall k :: 0 <= k < a ==> s[k] == pre[k];
    assert forall k :: a <= k < b ==> s[k] == core[k - a];
    assert forall k :: b <= k < |s| ==> s[k] == post[k - b];
    if core == [] {
      SpacesFromIs(s, 0, |s|);
    } else {
      SpacesFromIs(s, 0, a);
      SpacesBeforeIs(s, |s|, b);
      assert s[a..b] == core;
    }
  }

  /** `s.split(sep)[0]`: the text before the first `sep`, or all of `s` when there is none. */
  function BeforeFirst(s: string, sep: char): (r: string)
    ensures |r| <= |s| && r == s[..|r|]
    ensures sep !in r
    ensures |r| < |s| ==> s[|r|] == sep
  {
    if s == [] || s[0] == sep then [] else [s[0]] + BeforeFirst(s[1..], sep)
  }

  /** The text before the first `sep` is the item in front of it, whatever follows. */
  lemma {:induction false} BeforeFirstOf(item: string, tail: string, sep: char)
    requires sep !in item
    requires tail == [] || tail[0] == sep
    ensures BeforeFirst(item + tail, sep) == item
  {
    if item == [] {
      assert item + tail == tail;
    } else {
      assert (item + tail)[0] == item[0] && (item + tail)[1..] == item[1..] + tail;
      BeforeFirstOf(item[1..], tail, sep);
    }
  }

  /** `sep.join(items)`. */
  function Join(items: seq<string>, sep: string): string
  {
    if |items| == 0 then ""
    else if |items| == 1 then items[0]
    else items[0] + sep + Join(items[1..], sep)
  }

  /** The separator `", ".join` puts between list items. */
  const ListSeparator := ", "

  /** `s` holds `", "` starting at index `i`. */
  predicate SeparatorAt(s: string, i: int)
  {
    0 <= i && i + 1 < |s| && s[i] == ',' && s[i + 1] == ' '
  }

  predicate ContainsSeparator(s: string)
  {
    exists i :: 0 <= i < |s| && SeparatorAt(s, i)
  }

  /** The index of the first `", "` in `s`. */
  function FirstSeparator(s: string): (p: nat)
    requires ContainsSeparator(s)
    ensures SeparatorAt(s, p)
    ensures forall i :: 0 <= i < p ==> !SeparatorAt(s, i)
  {
    if SeparatorAt(s, 0) then 0
    else
      var i :| 0 <= i < |s| && SeparatorAt(s, i);
      assert SeparatorAt(s[1..], i - 1);
      var p := 1 + FirstSeparator(s[1..]);
      assert forall i :: 1 <= i < p ==> SeparatorAt(s, i) == SeparatorAt(s[1..], i - 1);
      p
  }

  /** `s.split(", ")`: the inverse of `", ".join` on items that do not hold `", "`. */
  function SplitItems(s: string): (items: seq<string>)
    ensures |items| >= 1
    decreases |s|
  {
    if !ContainsSeparator(s) then [s]
    else
      var p := FirstSeparator(s);
      [s[..p]] + SplitItems(s[p + 2..])
  }

  /** Splitting a `", "`-joined, non-empty list gives the list back, duplicates and all. */
  lemma {:induction false} SplitJoin(items: seq<string>)
    requires |items| >= 1
    requires forall k :: 0 <= k < |items| ==> !ContainsSeparator(items[k])
    ensures SplitItems(Join(items, ListSeparator)) == items
  {
    if |items| > 1 {
      var x := items[0];
      var rest := Join(items[1..], ListSeparator);
      var s := Join(items, ListSeparator);
      assert s == x + ", " + rest;
      assert SeparatorAt(s, |x|);
      forall i | 0 <= i < |x|
        ensures !SeparatorAt(s, i)
      {
        if i + 1 < |x| {
          assert SeparatorAt(s, i) ==> SeparatorAt(x, i);
        } else {
          assert s[i + 1] == ',';
        }
      }
      assert FirstSeparator(s) == |x|;
      assert s[..|x|] == x;
      assert s[|x| + 2..] == rest;
      SplitJoin(items[1..]);
      assert items == [x] + items[1..];
    }
  }

  /** Python's `a <= b` on `str`: lexicographic by code point. */
  predicate StrLe(a: string, b: string)
  {
    if a == [] then true
    else if b == [] then false
    else if a[0] != b[0] then a[0] < b[0]
    else StrLe(a[1..], b[1..])
  }

  lemma {:induction false} StrLeTotal(a: string, b: string)
    ensures StrLe(a, b) || StrLe(b, a)
  {
    if a != [] && b != [] && a[0] == b[0] {
      StrLeTotal(a[1..], b[1..]);
    }
  }

  lemma {:induction false} StrLeTransitive(a: string, b: string, c: string)
    requires StrLe(a, b) && StrLe(b, c)
    ensures StrLe(a, c)
  {
    if a != [] && b != [] && c != [] && a[0] == b[0] == c[0] {
      StrLeTransitive(a[1..], b[1..], c[1..]);
    }
  }

  lemma {:induction false} StrLeAntisymmetric(a: string, b: string)
    requires StrLe(a, b) && StrLe(b, a)
    ensures a == b
  {
    if a != [] && b != [] {
      StrLeAntisymmetric(a[1..], b[1..]);
      assert a == [a[0]] + a[1..] && b == [b[0]] + b[1..];
    }
  }

  lemma StrLeIsTotalPreorder()
    ensures TotalPreorder(StrLe)
  {
    forall a, b ensures StrLe(a, b) || StrLe(b, a) {
      StrLeTotal(a, b);
    }
    forall a, b, c | StrLe(a, b) && StrLe(b, c) ensures StrLe(a, c) {
      StrLeTransitive(a, b, c);
    }
  }
}
