/** The string operations of Rust's `str` that the route generator relies on. */
module Text {
  import opened Results

  /** `str::split` with a non-empty string pattern: the pieces between the
      non-overlapping occurrences of `sep`, found from the left. */
  function SplitOn(s: string, sep: string): (parts: seq<string>)
    requires sep != []
    ensures |parts| >= 1
    decreases |s|
  {
    if |s| < |sep| then [s]
    else if s[..|sep|] == sep then [[]] + SplitOn(s[|sep|..], sep)
    else
      var rest := SplitOn(s[1..], sep);
      [[s[0]] + rest[0]] + rest[1..]
  }

  /** `str::split` with a single character. */
  function Split(s: string, c: char): (parts: seq<string>)
    ensures |parts| >= 1
  {
    SplitOn(s, [c])
  }

  /** `[&str]::join`. */
  function Join(parts: seq<string>, sep: string): string
  {
    if |parts| == 0 then []
    else if |parts| == 1 then parts[0]
    else parts[0] + sep + Join(parts[1..], sep)
  }

  /** Position of the first `c` in `s`. */
  function IndexOf(s: string, c: char): (i: nat)
    requires c in s
    ensures i < |s| && s[i] == c && c !in s[..i]
  {
    if s[0] == c then 0 else 1 + IndexOf(s[1..], c)
  }

  /** `str::split_once`: the text before and after the first `c`. */
  function SplitOnce(s: string, c: char): (r: Option<(string, string)>)
    ensures r.None? <==> c !in s
    ensures r.Some? ==> s == r.value.0 + [c] + r.value.1 && c !in r.value.0
  {
    if c in s then
      var i := IndexOf(s, c);
      assert s == s[..i] + [c] + s[i + 1..];
      Some((s[..i], s[i + 1..]))
    else None
  }

  /** `str::strip_prefix`. */
  function StripPrefix(s: string, prefix: string): (r: Option<string>)
    ensures r.Some? <==> prefix <= s
    ensures r.Some? ==> s == prefix + r.value
  {
    if prefix <= s then Some(s[|prefix|..]) else None
  }

  /** `char::is_whitespace`: the Unicode White_Space property. */
  predicate IsWhitespace(ch: char)
  {
    || ch == ' '
    || '\t' <= ch <= '\r'
    || ch == '\U{85}'
    || ch == '\U{A0}'
    || ch == '\U{1680}'
    || '\U{2000}' <= ch <= '\U{200A}'
    || ch == '\U{2028}'
    || ch == '\U{2029}'
    || ch == '\U{202F}'
    || ch == '\U{205F}'
    || ch == '\U{3000}'
  }

  /** `str::trim_start`. */
  function TrimStart(s: string): string
  {
    if s != [] && IsWhitespace(s[0]) then TrimStart(s[1..]) else s
  }

  /** `str::trim_end`. */
  function TrimEnd(s: string): string
  {
    if s != [] && IsWhitespace(s[|s| - 1]) then TrimEnd(s[..|s| - 1]) else s
  }

  /** `str::trim`: `s` without its leading and trailing white space. */
  function Trim(s: string): string
  {
    TrimEnd(TrimStart(s))
  }

  /** `TrimStart` drops exactly the leading white space. */
  lemma {:induction false} TrimStartSpec(s: string)
    ensures var r := TrimStart(s);
      |r| <= |s| && r == s[|s| - |r|..] && (r != [] ==> !IsWhitespace(r[0])) &&
      forall i :: 0 <= i < |s| - |r| ==> IsWhitespace(s[i])
  {
    if s != [] && IsWhitespace(s[0]) {
      var t := s[1..];
      TrimStartSpec(t);
      var r := TrimStart(t);
      assert TrimStart(s) == r;
      assert t[|t| - |r|..] == s[|s| - |r|..];
      forall i | 0 <= i < |s| - |r| ensures IsWhitespace(s[i]) {
        if i > 0 {
          assert s[i] == t[i - 1];
        }
      }
    }
  }

  /** `TrimEnd` drops exactly the trailing white space. */
  lemma {:induction false} TrimEndSpec(s: string)
    ensures var r := TrimEnd(s);
      |r| <= |s| && r == s[..|r|] && (r != [] ==> !IsWhitespace(r[|r| - 1])) &&
      forall i :: |r| <= i < |s| ==> IsWhitespace(s[i])
  {
    if s != [] && IsWhitespace(s[|s| - 1]) {
      var t := s[..|s| - 1];
      TrimEndSpec(t);
      var r := TrimEnd(t);
      assert TrimEnd(s) == r;
      assert t[..|r|] == s[..|r|];
      forall i | |r| <= i < |s| ensures IsWhitespace(s[i]) {
        if i < |s| - 1 {
          assert s[i] == t[i];
        }
      }
    }
  }

  /** `Trim` keeps the middle of `s` between white space it drops at both ends. */
  lemma {:induction false} TrimSpec(s: string)
    ensures var r := Trim(s); var i := |s| - |TrimStart(s)|;
      (r != [] ==> !IsWhitespace(r[0]) && !IsWhitespace(r[|r| - 1])) &&
      0 <= i && i + |r| <= |s| && r == s[i..i + |r|] &&
      (forall k :: 0 <= k < i ==> IsWhitespace(s[k])) &&
      (forall k :: i + |r| <= k < |s| ==> IsWhitespace(s[k]))
  {
    var t := TrimStart(s);
    TrimStartSpec(s);
    TrimEndSpec(t);
    var r := TrimEnd(t);
    var i := |s| - |t|;
    assert r == s[i..i + |r|];
    assert forall k :: i + |r| <= k < |s| ==> s[k] == t[k - i];
  }

  /** Leading white space is dropped up to the first other character. */
  lemma {:induction false} TrimStartLeading(ws: string, s: string)
    requires forall i :: 0 <= i < |ws| ==> IsWhitespace(ws[i])
    requires s != [] ==> !IsWhitespace(s[0])
    ensures TrimStart(ws + s) == s
    decreases |ws|
  {
    if ws != [] {
      assert (ws + s)[1..] == ws[1..] + s;
      TrimStartLeading(ws[1..], s);
    } else {
      assert ws + s == s;
    }
  }

  /** Text that starts and ends with other characters is its own trim. */
  lemma {:induction false} TrimTrimmed(s: string)
    requires s != [] ==> !IsWhitespace(s[0]) && !IsWhitespace(s[|s| - 1])
    ensures Trim(s) == s
  {
  }

  /** Splitting `p + t` where `p` holds no first character of `sep` extends the first piece of `t`. */
  lemma {:induction false} SplitOnPrefix(p: string, t: string, sep: string)
    requires sep != [] && sep[0] !in p
    ensures SplitOn(p + t, sep) == [p + SplitOn(t, sep)[0]] + SplitOn(t, sep)[1..]
    decreases |p|
  {
    if p == [] {
      var q := SplitOn(t, sep);
      assert p + t == t && p + q[0] == q[0];
      assert q == [q[0]] + q[1..];
    } else if |p + t| < |sep| {
      assert SplitOn(t, sep) == [t];
    } else {
      assert (p + t)[0] == p[0] != sep[0];
      assert (p + t)[..|sep|] != sep;
      assert (p + t)[1..] == p[1..] + t;
      SplitOnPrefix(p[1..], t, sep);
      assert [p[0]] + (p[1..] + SplitOn(t, sep)[0]) == p + SplitOn(t, sep)[0];
    }
  }

  /** Splitting a joined list on the separator gives the list back when no piece
      holds the separator's first character. */
  lemma {:induction false} SplitOnJoin(parts: seq<string>, sep: string)
    requires sep != [] && |parts| >= 1
    requires forall i :: 0 <= i < |parts| ==> sep[0] !in parts[i]
    ensures SplitOn(Join(parts, sep), sep) == parts
  {
    if |parts| == 1 {
      SplitOnPrefix(parts[0], [], sep);
      assert parts[0] + [] == parts[0];
    } else {
      var j := Join(parts[1..], sep);
      SplitOnJoin(parts[1..], sep);
      assert (sep + j)[..|sep|] == sep;
      assert (sep + j)[|sep|..] == j;
      assert SplitOn(sep + j, sep) == [[]] + parts[1..];
      SplitOnPrefix(parts[0], sep + j, sep);
      assert parts[0] + sep + j == parts[0] + (sep + j);
      assert parts[0] + [] == parts[0];
      assert parts == [parts[0]] + parts[1..];
    }
  }

  /** Joining the pieces of a split with the separator gives the string back. */
  lemma {:induction false} JoinSplitOn(s: string, sep: string)
    requires sep != []
    ensures Join(SplitOn(s, sep), sep) == s
    decreases |s|
  {
    if |s| < |sep| {
    } else if s[..|sep|] == sep {
      JoinSplitOn(s[|sep|..], sep);
      JoinSplitOnAtSep(s, sep);
    } else {
      JoinSplitOn(s[1..], sep);
      JoinSplitOnPastChar(s, sep);
    }
  }

  /** The step of `JoinSplitOn` where `s` starts with the separator. */
  lemma {:induction false} JoinSplitOnAtSep(s: string, sep: string)
    requires sep != [] && |s| >= |sep| && s[..|sep|] == sep
    requires Join(SplitOn(s[|sep|..], sep), sep) == s[|sep|..]
    ensures Join(SplitOn(s, sep), sep) == s
  {
    var rest := SplitOn(s[|sep|..], sep);
    assert ([[]] + rest)[1..] == rest;
    assert s == [] + sep + s[|sep|..];
  }

  /** Prefixing the first piece with a character prefixes the join with it. */
  lemma {:induction false} JoinConsFirst(ch: char, parts: seq<string>, sep: string)
    requires |parts| >= 1
    ensures Join([[ch] + parts[0]] + parts[1..], sep) == [ch] + Join(parts, sep)
  {
    var q := [[ch] + parts[0]] + parts[1..];
    assert q[0] == [ch] + parts[0] && q[1..] == parts[1..];
  }

  /** The step of `JoinSplitOn` where the first character of `s` joins the first piece. */
  lemma {:induction false} JoinSplitOnPastChar(s: string, sep: string)
    requires sep != [] && |s| >= |sep| && s[..|sep|] != sep
    requires Join(SplitOn(s[1..], sep), sep) == s[1..]
    ensures Join(SplitOn(s, sep), sep) == s
  {
    var rest := SplitOn(s[1..], sep);
    assert SplitOn(s, sep) == [[s[0]] + rest[0]] + rest[1..];
    JoinConsFirst(s[0], rest, sep);
    assert s == [s[0]] + s[1..];
  }

  /** No piece of `Split(s, c)` contains `c`. */
  lemma {:induction false} SplitPiecesLackSep(s: string, c: char)
    ensures forall i :: 0 <= i < |Split(s, c)| ==> c !in Split(s, c)[i]
    decreases |s|
  {
    if |s| >= 1 {
      SplitPiecesLackSep(s[1..], c);
      assert s[..1] == [s[0]];
      if s[0] != c {
        var rest := Split(s[1..], c);
        assert c !in rest[0];
        assert c !in [s[0]] + rest[0];
      } else {
        assert s[1..] == s[|[c]|..];
        var rest := Split(s[1..], c);
        assert Split(s, c) == [[]] + rest;
      }
    }
  }

  /** The first piece of `Split(s, c)` is what comes before the first `c`. */
  lemma {:induction false} SplitFirstPiece(s: string, c: char)
    ensures Split(s, c)[0] == (if c in s then s[..IndexOf(s, c)] else s)
    decreases |s|
  {
    if |s| >= 1 {
      SplitFirstPiece(s[1..], c);
      assert s[..1] == [s[0]];
      if s[0] != c {
        assert c in s <==> c in s[1..];
        assert s == [s[0]] + s[1..];
      }
    }
  }

  /** A character found neither in the pieces nor in the separator is not in their join. */
  lemma {:induction false} JoinLacks(parts: seq<string>, sep: string, c: char)
    requires c !in sep
    requires forall i :: 0 <= i < |parts| ==> c !in parts[i]
    ensures c !in Join(parts, sep)
  {
    if |parts| > 1 {
      JoinLacks(parts[1..], sep, c);
    }
  }

  /** `split_once` stops at the first occurrence of its character. */
  lemma {:induction false} SplitOnceAt(x: string, y: string, c: char)
    requires c !in x
    ensures SplitOnce(x + [c] + y, c) == Some((x, y))
  {
    var s := x + [c] + y;
    var r := SplitOnce(s, c);
    assert s[|x|] == c;
    var b := r.value.0;
    assert s == b + [c] + r.value.1;
    assert x[..|x|] == x && s[..|x|] == x;
    assert s[..|b|] == b;
    assert b == s[..|x|] == x;
    assert r.value.1 == s[|x| + 1..] == y;
  }

  /** Joining a concatenation puts one separator between the two joins. */
  lemma {:induction false} JoinAppend(a: seq<string>, b: seq<string>, sep: string)
    requires |a| >= 1 && |b| >= 1
    ensures Join(a + b, sep) == Join(a, sep) + sep + Join(b, sep)
    decreases |a|
  {
    assert (a + b)[0] == a[0];
    if |a| == 1 {
      assert (a + b)[1..] == b;
    } else {
      assert (a + b)[1..] == a[1..] + b;
      JoinAppend(a[1..], b, sep);
    }
  }

  /** Splitting at an occurrence of `c` splits the two sides independently. */
  lemma {:induction false} SplitAppend(a: string, b: string, c: char)
    ensures Split(a + [c] + b, c) == Split(a, c) + Split(b, c)
    decreases |a|
  {
    var s := a + [c] + b;
    if a == [] {
      assert s == [c] + b && s[..1] == [c] && s[1..] == b;
    } else {
      SplitAppend(a[1..], b, c);
      assert s[..1] == [a[0]] && a[..1] == [a[0]];
      assert s[1..] == a[1..] + [c] + b;
      if a[0] != c {
        var rest := Split(a[1..], c);
        assert (rest + Split(b, c))[0] == rest[0];
        assert (rest + Split(b, c))[1..] == rest[1..] + Split(b, c);
      }
    }
  }

  /** The number of occurrences of `c` in `s`. */
  function Count(s: string, c: char): nat
  {
    if s == [] then 0 else (if s[0] == c then 1 else 0) + Count(s[1..], c)
  }

  /** Splitting on a character gives one piece more than it has occurrences. */
  lemma {:induction false} SplitCount(s: string, c: char)
    ensures |Split(s, c)| == Count(s, c) + 1
    decreases |s|
  {
    if s != [] {
      SplitCount(s[1..], c);
      assert s[..1] == [s[0]];
    }
  }

  /** A string without `c` is a single piece. */
  lemma {:induction false} SplitNoSep(s: string, c: char)
    requires c !in s
    ensures Split(s, c) == [s]
  {
    SplitOnPrefix(s, [], [c]);
    assert s + [] == s;
  }

  /** The first piece ends at the first `c`; the rest is the split of what follows. */
  lemma {:induction false} SplitCons(a: string, b: string, c: char)
    requires c !in a
    ensures Split(a + [c] + b, c) == [a] + Split(b, c)
  {
    SplitOnPrefix(a, [c] + b, [c]);
    assert ([c] + b)[..1] == [c] && ([c] + b)[1..] == b;
    assert SplitOn([c] + b, [c]) == [[]] + Split(b, c);
    assert a + [c] + b == a + ([c] + b);
    assert a + [] == a;
  }
}
