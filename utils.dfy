/** The general-purpose helpers of the site: string splitting, column layout, file names, truncation. */
module Utils {
  import opened Js
  import opened Lists

  // ---- `split` and `join` on one separator character ----

  /** `s.split(sep)` for a one-character separator. */
  function Split(s: string, sep: char): (r: seq<string>)
    ensures |r| >= 1
    ensures forall i :: 0 <= i < |r| ==> sep !in r[i]
  {
    if |s| == 0 then [""]
    else
      var rest := Split(s[1..], sep);
      if s[0] == sep then [""] + rest
      else [[s[0]] + rest[0]] + rest[1..]
  }

  lemma JoinCons(c: char, p: string, ps: seq<string>, sep: string)
    ensures Join([[c] + p] + ps, sep) == [c] + Join([p] + ps, sep)
  {
    assert ([[c] + p] + ps)[1..] == ps;
    assert ([p] + ps)[1..] == ps;
  }

  /** Joining the pieces of a split with the separator gives back the string. */
  lemma {:induction false} SplitThenJoin(s: string, sep: char)
    ensures Join(Split(s, sep), [sep]) == s
  {
    if |s| > 0 {
      var rest := Split(s[1..], sep);
      SplitThenJoin(s[1..], sep);
      if s[0] == sep {
        assert ([""] + rest)[1..] == rest;
      } else {
        assert rest == [rest[0]] + rest[1..];
        JoinCons(s[0], rest[0], rest[1..], [sep]);
      }
      assert s == [s[0]] + s[1..];
    }
  }

  lemma {:induction false} SplitWithoutSep(p: string, sep: char)
    requires sep !in p
    ensures Split(p, sep) == [p]
  {
    if |p| > 0 {
      assert p[1..] == p[1..] && sep !in p[1..] by {
        forall c | c in p[1..] ensures c in p { }
      }
      SplitWithoutSep(p[1..], sep);
      assert p == [p[0]] + p[1..];
    }
  }

  lemma {:induction false} SplitAfterPiece(p: string, rest: string, sep: char)
    requires sep !in p
    ensures Split(p + [sep] + rest, sep) == [p] + Split(rest, sep)
  {
    if |p| == 0 {
      assert p + [sep] + rest == [sep] + rest;
      assert ([sep] + rest)[1..] == rest;
    } else {
      assert (p + [sep] + rest)[1..] == p[1..] + [sep] + rest;
      assert sep !in p[1..] by {
        forall c | c in p[1..] ensures c in p { }
      }
      SplitAfterPiece(p[1..], rest, sep);
      assert p == [p[0]] + p[1..];
    }
  }

  /** Splitting a join of separator-free pieces gives back the pieces. */
  lemma {:induction false} JoinThenSplit(parts: seq<string>, sep: char)
    requires |parts| >= 1
    requires forall i :: 0 <= i < |parts| ==> sep !in parts[i]
    ensures Split(Join(parts, [sep]), sep) == parts
  {
    if |parts| == 1 {
      SplitWithoutSep(parts[0], sep);
    } else {
      JoinThenSplit(parts[1..], sep);
      SplitAfterPiece(parts[0], Join(parts[1..], [sep]), sep);
      assert parts == [parts[0]] + parts[1..];
    }
  }

  // ---- `chunk`: round-robin distribution into `size` columns ----

  /** The elements of `s` at the positions `k` with `k % size == b`, in order. */
  function Column<T>(s: seq<T>, size: nat, b: nat): (r: seq<T>)
    requires size >= 1
    ensures |r| <= |s|
  {
    if |s| == 0 then []
    else Column(s[..|s| - 1], size, b) + (if (|s| - 1) % size == b then [s[|s| - 1]] else [])
  }

  function Columns<T>(s: seq<T>, size: nat): (r: seq<seq<T>>)
    requires size >= 1
    ensures |r| == size
  {
    seq(size, b requires 0 <= b < size => Column(s, size, b))
  }

  /**
   * `chunk(arr, size)`: shifts the elements off a copy of `arr` and pushes them
   * into the buckets in turn, wrapping the bucket index at `size`.
   */
  method Chunk<T>(arr: seq<T>, size: nat) returns (chunked: seq<seq<T>>)
    requires size >= 1
    ensures chunked == Columns(arr, size)
  {
    chunked := seq(size, _ => []);
    var copied := arr;
    var index := 0;
    while |copied| > 0
      invariant |copied| <= |arr| && copied == arr[|arr| - |copied|..]
      invariant |chunked| == size
      invariant WrappedIndex(|arr| - |copied|, size, index)
      invariant forall b :: 0 <= b < size ==> chunked[b] == Column(arr[..|arr| - |copied|], size, b)
    {
      ghost var k := |arr| - |copied|;
      IndexWraps(k, size, index);
      if index > size - 1 {
        index := 0;
      }
      forall b | 0 <= b < size
        ensures Column(arr[..k + 1], size, b) == Column(arr[..k], size, b) + (if index == b then [arr[k]] else [])
      {
        assert arr[..k + 1][..k] == arr[..k];
      }
      chunked := chunked[index := chunked[index] + [copied[0]]];
      copied := copied[1..];
      index := index + 1;
    }
    assert arr[..|arr|] == arr;
  }

  /** The bucket index the loop of `chunk` holds after `k` elements: `k % size`, not yet wrapped. */
  ghost predicate WrappedIndex(k: nat, size: nat, index: int)
    requires size >= 1
  {
    if k == 0 then index == 0 else index == (k - 1) % size + 1
  }

  /** Wrapping the index at `size` gives the bucket `k % size` of the next element. */
  lemma IndexWraps(k: nat, size: nat, index: int)
    requires size >= 1 && WrappedIndex(k, size, index)
    ensures (if index > size - 1 then 0 else index) == k % size
    ensures WrappedIndex(k + 1, size, k % size + 1)
  {
    if k > 0 {
      DivStep(k - 1, size);
    }
  }

  lemma {:induction false} MulAtLeast(a: int, d: int)
    requires a >= 1 && d > 0
    ensures a * d >= d
    decreases a
  {
    if a > 1 {
      MulAtLeast(a - 1, d);
      assert a * d == (a - 1) * d + d;
    }
  }

  /** Quotient and remainder are the only ones that rebuild `n`. */
  lemma DivModUnique(n: int, d: int, q: int, r: int)
    requires d > 0 && 0 <= r < d && n == q * d + r
    ensures n / d == q && n % d == r
  {
    var q0, r0 := n / d, n % d;
    assert n == q0 * d + r0;
    assert (q - q0) * d == r0 - r;
    if q > q0 { MulAtLeast(q - q0, d); }
    if q < q0 { MulAtLeast(q0 - q, d); }
  }

  /** How quotient and remainder move when the dividend grows by one. */
  lemma DivStep(m: nat, size: nat)
    requires size >= 1
    ensures m % size < size - 1 ==> (m + 1) / size == m / size && (m + 1) % size == m % size + 1
    ensures m % size == size - 1 ==> (m + 1) / size == m / size + 1 && (m + 1) % size == 0
  {
    var q, r := m / size, m % size;
    assert m == q * size + r;
    if r < size - 1 {
      DivModUnique(m + 1, size, q, r + 1);
    } else {
      assert m + 1 == (q + 1) * size + 0;
      DivModUnique(m + 1, size, q + 1, 0);
    }
  }

  /** Bucket `b` gets one element per full round, and one more if the last round reaches it. */
  lemma {:induction false} ColumnLength<T>(s: seq<T>, size: nat, b: nat)
    requires size >= 1 && b < size
    ensures |Column(s, size, b)| == |s| / size + (if b < |s| % size then 1 else 0)
  {
    if |s| > 0 {
      var m := |s| - 1;
      ColumnLength(s[..m], size, b);
      DivStep(m, size);
    }
  }

  /** Element `j` of bucket `b` is element `j * size + b` of the input. */
  lemma {:induction false} ColumnElement<T>(s: seq<T>, size: nat, b: nat, j: nat)
    requires size >= 1 && b < size && j < |Column(s, size, b)|
    ensures j * size + b < |s| && Column(s, size, b)[j] == s[j * size + b]
  {
    var m := |s| - 1;
    var c := Column(s[..m], size, b);
    assert Column(s, size, b) == c + (if m % size == b then [s[m]] else []);
    if j < |c| {
      ColumnElement(s[..m], size, b, j);
    } else {
      ColumnLength(s[..m], size, b);
      var q, r := m / size, m % size;
      assert r == b && |c| == q && j == q;
      DivModRebuilds(m, size);
      MulCommutes(j, size);
    }
  }

  lemma MulCommutes(a: int, b: int)
    ensures a * b == b * a
  {
  }

  function TotalLength<T>(cols: seq<seq<T>>): nat {
    if |cols| == 0 then 0 else TotalLength(cols[..|cols| - 1]) + |cols[|cols| - 1]|
  }

  lemma {:induction false} ColumnsPrefixTotal<T>(s: seq<T>, size: nat, k: nat)
    requires size >= 1 && k <= size
    ensures TotalLength(Columns(s, size)[..k]) == k * (|s| / size) + (if k < |s| % size then k else |s| % size)
  {
    var q, r := |s| / size, |s| % size;
    PrefixTotal(Columns(s, size), k, q, r, size) by {
      forall b | 0 <= b < size
        ensures |Columns(s, size)[b]| == q + (if b < r then 1 else 0)
      {
        ColumnLength(s, size, b);
      }
    }
  }

  /** Summing the first `k` of `size` lengths that are `q` plus one below index `r`. */
  lemma {:induction false} PrefixTotal<T>(cols: seq<seq<T>>, k: nat, q: int, r: int, size: nat)
    requires k <= size == |cols| && 0 <= r
    requires forall b :: 0 <= b < size ==> |cols[b]| == q + (if b < r then 1 else 0)
    ensures TotalLength(cols[..k]) == k * q + (if k < r then k else r)
  {
    if k > 0 {
      PrefixTotal(cols, k - 1, q, r, size);
      assert cols[..k][..k - 1] == cols[..k - 1];
      assert cols[..k][k - 1] == cols[k - 1];
      MulStep(k, q);
    }
  }

  lemma MulStep(k: int, q: int)
    ensures k * q == (k - 1) * q + q
  {
  }

  /**
   * The buckets of `chunk` never grow from left to right, differ by at most one
   * element, and together hold every element of the input.
   */
  lemma ColumnsBalanced<T>(s: seq<T>, size: nat)
    requires size >= 1
    ensures forall b1, b2 :: 0 <= b1 <= b2 < size ==>
      |Columns(s, size)[b2]| <= |Columns(s, size)[b1]| <= |Columns(s, size)[b2]| + 1
    ensures TotalLength(Columns(s, size)) == |s|
  {
    var cols, q, r := Columns(s, size), |s| / size, |s| % size;
    forall b | 0 <= b < size
      ensures |cols[b]| == q + (if b < r then 1 else 0)
    {
      ColumnLength(s, size, b);
    }
    PrefixTotal(cols, size, q, r, size);
    assert cols[..size] == cols;
    DivModRebuilds(|s|, size);
  }

  lemma DivModRebuilds(n: nat, d: nat)
    requires d >= 1
    ensures d * (n / d) + n % d == n
  {
  }

  // ---- File names and paths ----

  predicate IsAlnum(c: char) { IsDigit(c) || 'a' <= c <= 'z' || 'A' <= c <= 'Z' }

  predicate IsLowerAlnum(c: char) { IsDigit(c) || 'a' <= c <= 'z' }

  /** Length of the longest run of ASCII letters and digits ending the string. */
  function AlnumSuffixLen(s: string): (n: nat)
    ensures n <= |s|
    ensures forall i :: |s| - n <= i < |s| ==> IsAlnum(s[i])
    ensures n == |s| || !IsAlnum(s[|s| - n - 1])
  {
    if |s| > 0 && IsAlnum(s[|s| - 1]) then AlnumSuffixLen(s[..|s| - 1]) + 1 else 0
  }

  /**
   * `getExtension`: the letters and digits after the last `.` when they run to
   * the end of the name (`/\.[a-z0-9]+$/i`), lower-cased; otherwise `''`.
   */
  function GetExtension(filename: string): (r: string)
    ensures forall i :: 0 <= i < |r| ==> IsLowerAlnum(r[i])
    ensures r != "" ==> |r| < |filename| && filename[|filename| - |r| - 1] == '.'
                        && Lower(filename[|filename| - |r|..]) == r
  {
    if filename == "" then ""
    else
      var n := AlnumSuffixLen(filename);
      if 0 < n < |filename| && filename[|filename| - n - 1] == '.' then
        Lower(filename[|filename| - n..])
      else ""
  }

  /** A name made of anything, a dot and a non-empty run of letters and digits has that run as its extension. */
  lemma GetExtensionOf(base: string, ext: string)
    requires ext != "" && forall i :: 0 <= i < |ext| ==> IsAlnum(ext[i])
    ensures GetExtension(base + "." + ext) == Lower(ext)
  {
    var f := base + "." + ext;
    var n := AlnumSuffixLen(f);
    assert f[|f| - |ext| - 1] == '.';
    assert f[|f| - |ext|..] == ext;
  }

  lemma GetExtensionExamples()
    ensures GetExtension("a.tar.GZ") == "gz"
    ensures GetExtension("a.") == ""
    ensures GetExtension("noext") == ""
    ensures GetExtension("x.b-c") == ""
    ensures GetExtension("") == ""
  {
    GetExtensionOf("a.tar", "GZ");
    assert "a.tar" + "." + "GZ" == "a.tar.GZ";
    assert AlnumSuffixLen("a.") == 0;
    assert AlnumSuffixLen("noext") == 5;
    assert AlnumSuffixLen("x.b-c") == 1;
  }

  /** Number of `.` characters starting the string. */
  function DotRun(s: string): (n: nat)
    ensures n <= |s|
    ensures forall i :: 0 <= i < n ==> s[i] == '.'
    ensures n == |s| || s[n] != '.'
  {
    if |s| > 0 && s[0] == '.' then 1 + DotRun(s[1..]) else 0
  }

  /** Length of a leading `\.+\/` group, or 0 when the string does not start with one. */
  function DotGroupLen(s: string): (n: nat)
    ensures n <= |s|
    ensures n > 0 ==> s[0] == '.' && s[n - 1] == '/'
    ensures forall i :: 0 <= i < n ==> s[i] == '.' || s[i] == '/'
  {
    var d := DotRun(s);
    if 0 < d < |s| && s[d] == '/' then d + 1 else 0
  }

  /** `replace(/^(\.+\/)+/, '')`: drops every leading group of dots followed by a slash. */
  function StripDotGroups(s: string): (r: string)
    ensures |r| <= |s| && r == s[|s| - |r|..]
    ensures DotGroupLen(r) == 0
    ensures DotGroupLen(s) == 0 ==> r == s
    ensures |r| < |s| ==> s[|s| - |r| - 1] == '/' && s[0] == '.'
    ensures forall i :: 0 <= i < |s| - |r| ==> s[i] == '.' || s[i] == '/'
    decreases |s|
  {
    var n := DotGroupLen(s);
    if n == 0 then s else StripDotGroupsStep(s, n, StripDotGroups(s[n..])); StripDotGroups(s[n..])
  }

  /** The contract of `StripDotGroups` carried over one dropped group of length `n`. */
  lemma StripDotGroupsStep(s: string, n: nat, r: string)
    requires 0 < n <= |s| && s[0] == '.' && s[n - 1] == '/'
    requires forall i :: 0 <= i < n ==> s[i] == '.' || s[i] == '/'
    requires |r| <= |s| - n && r == s[n..][|s| - n - |r|..]
    requires |r| < |s| - n ==> s[n..][|s| - n - |r| - 1] == '/'
    requires forall i :: 0 <= i < |s| - n - |r| ==> s[n..][i] == '.' || s[n..][i] == '/'
    ensures |r| <= |s| && r == s[|s| - |r|..]
    ensures |r| < |s| ==> s[|s| - |r| - 1] == '/' && s[0] == '.'
    ensures forall i :: 0 <= i < |s| - |r| ==> s[i] == '.' || s[i] == '/'
  {
    assert s[n..][|s| - n - |r|..] == s[|s| - |r|..];
    forall i | n <= i < |s| - |r|
      ensures s[i] == '.' || s[i] == '/'
    {
      assert s[i] == s[n..][i - n];
    }
    if |r| < |s| - n {
      assert s[|s| - |r| - 1] == s[n..][|s| - n - |r| - 1];
    }
  }

  /** `cleanRelativePath`: relative `./` and `../` prefixes removed, then trimmed. */
  function CleanRelativePath(path: string): (r: string)
    ensures DotGroupLen(path) == 0 ==> r == Trim(path)
    ensures exists k :: (0 <= k <= |path| && DotGroupLen(path[k..]) == 0 && r == Trim(path[k..])
                         && forall i :: 0 <= i < k ==> path[i] == '.' || path[i] == '/')
  {
    var rest := StripDotGroups(path);
    assert path[|path| - |rest|..] == rest;
    Trim(rest)
  }

  /** One leading group of dots and a slash is dropped, whatever follows it. */
  lemma StripOneGroup(dots: string, rest: string)
    requires |dots| > 0 && forall i :: 0 <= i < |dots| ==> dots[i] == '.'
    ensures StripDotGroups(dots + "/" + rest) == StripDotGroups(rest)
  {
    var s := dots + "/" + rest;
    assert s[|dots|] == '/';
    assert forall i :: 0 <= i < |dots| ==> s[i] == '.';
    assert DotRun(s) == |dots|;
    assert s[|dots| + 1..] == rest;
  }

  /** `cleanRelativePath` drops every leading `./` or `../` group, then trims. */
  lemma CleanRelativePathGroups(dots: string, rest: string)
    requires |dots| > 0 && forall i :: 0 <= i < |dots| ==> dots[i] == '.'
    ensures CleanRelativePath(dots + "/" + rest) == CleanRelativePath(rest)
    ensures DotGroupLen(rest) == 0 ==> CleanRelativePath(dots + "/" + rest) == Trim(rest)
  {
    StripOneGroup(dots, rest);
  }

  // ---- truncate ----

  /**
   * `truncate(str, len, ending)`: a string longer than `len` is cut to its first
   * `len` characters (none when `len` is negative, as `substr` does), followed by
   * a space and `ending`.
   */
  function Truncate(str: string, len: int, ending: string): (r: string)
    ensures |str| <= len ==> r == str
    ensures |str| > len ==> var keep := if len < 0 then 0 else len;
      |r| == keep + 1 + |ending| && r[..keep] == str[..keep] && r[keep..] == " " + ending
  {
    if |str| > len then str[..if len < 0 then 0 else len] + " " + ending else str
  }

  /** A truncated text is never longer than `len`, one space and the ending. */
  lemma TruncateBound(str: string, len: nat, ending: string)
    ensures |Truncate(str, len, ending)| <= len + 1 + |ending|
    ensures StartsWith(str, Truncate(str, len, ending)) || |str| > len
  {
  }

  // ---- contains / notContains ----

  /** `arr.indexOf(value)`: the first position holding `value`, or -1. */
  function IndexOf<T(==)>(arr: seq<T>, value: T): (i: int)
    ensures -1 <= i < |arr|
    ensures i == -1 <==> value !in arr
    ensures i >= 0 ==> arr[i] == value && value !in arr[..i]
  {
    if |arr| == 0 then -1
    else if arr[0] == value then 0
    else
      var j := IndexOf(arr[1..], value);
      assert forall k :: 0 <= k < j ==> arr[1..][..j][k] == arr[..j + 1][k + 1];
      if j == -1 then -1 else j + 1
  }

  predicate Contains<T(==)>(arr: seq<T>, value: T): (r: bool)
    ensures r <==> value in arr
  {
    IndexOf(arr, value) != -1
  }

  predicate NotContains<T(==)>(arr: seq<T>, value: T): (r: bool)
    ensures r <==> value !in arr
  {
    !Contains(arr, value)
  }

  /** `contains` is membership and `notContains` its negation. */
  lemma ContainsIsMembership<T>(arr: seq<T>, value: T)
    ensures Contains(arr, value) <==> value in arr
    ensures NotContains(arr, value) <==> value !in arr
  {
  }

  // ---- hashObj ----

  /**
   * `hashObj`: the object's property values, in property order, converted as
   * `join` converts them and joined with `_`. An object is given as its list of
   * (name, value) properties in `getOwnPropertyNames` order.
   */
  function HashObj(props: seq<(string, Value)>): (r: string)
    ensures |props| == 0 ==> r == ""
    ensures |props| == 1 && props[0].1.Str? ==> r == props[0].1.s
  {
    var values := Map(props, (p: (string, Value)) => p.1);
    var parts := ElementStrings(values);
    assert |props| == 1 && props[0].1.Str? ==> values[0] == props[0].1 && parts[0] == ToJsString(values[0]);
    Join(parts, "_")
  }

  /** When the values are strings without `_`, splitting the hash at `_` recovers them. */
  lemma HashObjSplits(props: seq<(string, Value)>)
    requires |props| >= 1
    requires forall i :: 0 <= i < |props| ==> props[i].1.Str? && '_' !in props[i].1.s
    ensures Split(HashObj(props), '_') == Map(props, (p: (string, Value)) => ToJsString(p.1))
  {
    var values := Map(props, (p: (string, Value)) => p.1);
    var strs := ElementStrings(values);
    assert forall i :: 0 <= i < |values| ==> strs[i] == props[i].1.s by {
      ElementStringsOfStrings(values);
    }
    assert strs == Map(props, (p: (string, Value)) => ToJsString(p.1));
    JoinThenSplit(strs, '_');
  }

  lemma {:induction false} ElementStringsOfStrings(values: seq<Value>)
    requires forall i :: 0 <= i < |values| ==> values[i].Str?
    ensures forall i :: 0 <= i < |values| ==> ElementStrings(values)[i] == values[i].s
  {
    if |values| > 0 {
      ElementStringsOfStrings(values[1..]);
    }
  }
}
