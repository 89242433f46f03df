/**
 * The parts of java.lang.String the application relies on: trim(), the
 * "blank" test `s.trim().isEmpty()`, contains(), and the decimal rendering of
 * a number that string concatenation performs.
 */
module JavaText {

  /** String.trim() strips every character whose code is at most U+0020. */
  predicate IsSpace(c: char) {
    c <= ' '
  }

  /** The leading-space half of String.trim(). */
  function TrimStart(s: string): (r: string)
    ensures |r| <= |s|
    ensures |r| > 0 ==> !IsSpace(r[0])
  {
    if |s| > 0 && IsSpace(s[0]) then TrimStart(s[1..]) else s
  }

  /** TrimStart keeps a suffix and cuts only spaces. */
  lemma {:induction false} TrimStartShape(s: string)
    ensures TrimStart(s) == s[|s| - |TrimStart(s)|..]
    ensures forall i :: 0 <= i < |s| - |TrimStart(s)| ==> IsSpace(s[i])
  {
    if |s| > 0 && IsSpace(s[0]) {
      TrimStartShape(s[1..]);
      forall i | 1 <= i < |s| - |TrimStart(s)| ensures IsSpace(s[i]) {
        assert s[i] == s[1..][i - 1];
      }
    }
  }

  /** The trailing-space half of String.trim(). */
  function TrimEnd(s: string): (r: string)
    ensures |r| <= |s|
    ensures |r| > 0 ==> !IsSpace(r[|r| - 1])
  {
    if |s| > 0 && IsSpace(s[|s| - 1]) then TrimEnd(s[..|s| - 1]) else s
  }

  /** TrimEnd keeps a prefix and cuts only spaces. */
  lemma {:induction false} TrimEndShape(s: string)
    ensures TrimEnd(s) == s[..|TrimEnd(s)|]
    ensures forall i :: |TrimEnd(s)| <= i < |s| ==> IsSpace(s[i])
  {
    if |s| > 0 && IsSpace(s[|s| - 1]) {
      TrimEndShape(s[..|s| - 1]);
      forall i | |TrimEnd(s)| <= i < |s| - 1 ensures IsSpace(s[i]) {
        assert s[i] == s[..|s| - 1][i];
      }
    }
  }

  /** String.trim(). */
  function Trim(s: string): (r: string)
    ensures |r| <= |s|
    ensures |r| > 0 ==> !IsSpace(r[0]) && !IsSpace(r[|r| - 1])
  {
    TrimEndShape(TrimStart(s));
    TrimEnd(TrimStart(s))
  }

  /**
   * A blank string: nothing but spaces. BlankIffTrimEmpty shows this is
   * `s.trim().isEmpty()`, the test the controllers and @NotBlank apply.
   */
  predicate IsBlank(s: string) {
    forall k :: 0 <= k < |s| ==> IsSpace(s[k])
  }

  /** Trim returns a contiguous piece of its argument, with only spaces cut off either side. */
  lemma TrimIsSlice(s: string)
    ensures exists i, j :: 0 <= i <= j <= |s| && Trim(s) == s[i..j]
                           && (forall k :: 0 <= k < i ==> IsSpace(s[k]))
                           && (forall k :: j <= k < |s| ==> IsSpace(s[k]))
  {
    var t := TrimStart(s);
    var i := |s| - |t|;
    var r := TrimEnd(t);
    TrimStartShape(s);
    TrimEndShape(t);
    var j := i + |r|;
    assert r == s[i..j];
    forall k | j <= k < |s| ensures IsSpace(s[k]) {
      assert s[k] == t[k - i];
    }
  }

  /** Blank means that trimming leaves nothing: `s.trim().isEmpty()`. */
  lemma BlankIffTrimEmpty(s: string)
    ensures IsBlank(s) <==> |Trim(s)| == 0
  {
    TrimIsSlice(s);
    var i, j :| 0 <= i <= j <= |s| && Trim(s) == s[i..j]
                && (forall k :: 0 <= k < i ==> IsSpace(s[k]))
                && (forall k :: j <= k < |s| ==> IsSpace(s[k]));
    if |Trim(s)| > 0 {
      assert !IsSpace(s[i]) by { assert s[i] == Trim(s)[0]; }
    }
  }

  /** Trimming twice is trimming once. */
  lemma TrimIdempotent(s: string)
    ensures Trim(Trim(s)) == Trim(s)
  {
    var r := Trim(s);
    assert TrimStart(r) == r;
  }

  /** Trimmed and non-empty: no space at either end. */
  predicate IsTrimmedNonBlank(s: string) {
    |s| > 0 && !IsSpace(s[0]) && !IsSpace(s[|s| - 1])
  }

  /** IsTrimmedNonBlank says what its name says: Trim leaves the string alone, and it is not blank. */
  lemma TrimmedNonBlankIff(s: string)
    ensures IsTrimmedNonBlank(s) <==> !IsBlank(s) && Trim(s) == s
  {
    if IsTrimmedNonBlank(s) {
      assert TrimStart(s) == s;
    }
    if !IsBlank(s) && Trim(s) == s {
      BlankIffTrimEmpty(s);
    }
  }

  /** The trimmed form of a non-blank string is non-empty with no space at either end. */
  lemma TrimOfNonBlank(s: string)
    requires !IsBlank(s)
    ensures IsTrimmedNonBlank(Trim(s)) && !IsBlank(Trim(s))
  {
    BlankIffTrimEmpty(s);
  }

  /** `t` occurs in `s` starting at index `i`. */
  predicate OccursAt(s: string, t: string, i: int) {
    0 <= i && i + |t| <= |s| && s[i..i + |t|] == t
  }

  /** String.contains(): `t` occurs in `s` at some position (the empty string occurs everywhere). */
  function Contains(s: string, t: string): (r: bool)
    ensures r <==> exists i :: OccursAt(s, t, i)
  {
    if |t| > |s| then false
    else if s[..|t|] == t then
      assert OccursAt(s, t, 0);
      true
    else
      var rest := Contains(s[1..], t);
      assert rest ==> exists i :: OccursAt(s, t, i) by {
        if rest {
          var i :| OccursAt(s[1..], t, i);
          assert s[i + 1..i + 1 + |t|] == s[1..][i..i + |t|];
          assert OccursAt(s, t, i + 1);
        }
      }
      assert (exists i :: OccursAt(s, t, i)) ==> rest by {
        if exists i :: OccursAt(s, t, i) {
          var i :| OccursAt(s, t, i);
          assert i != 0;
          assert s[1..][i - 1..i - 1 + |t|] == s[i..i + |t|];
          assert OccursAt(s[1..], t, i - 1);
        }
      }
      rest
  }

  /** The character of one decimal digit. */
  function DigitChar(d: nat): (c: char)
    requires d < 10
    ensures '0' <= c <= '9' && (c as int) - ('0' as int) == d
  {
    (('0' as int) + d) as char
  }

  /** The decimal digits of a non-negative number, as Java's string concatenation writes them. */
  function DecimalString(n: nat): (r: string)
    ensures |r| > 0
    ensures forall k :: 0 <= k < |r| ==> '0' <= r[k] <= '9'
  {
    if n < 10 then [DigitChar(n)] else DecimalString(n / 10) + [DigitChar(n % 10)]
  }

  /** The value of a string of decimal digits. */
  function DecimalValue(s: string): nat
    requires forall k :: 0 <= k < |s| ==> '0' <= s[k] <= '9'
  {
    if |s| == 0 then 0
    else DecimalValue(s[..|s| - 1]) * 10 + ((s[|s| - 1] as int) - ('0' as int))
  }

  /** Reading back the rendered digits gives the number: the rendering loses nothing. */
  lemma {:induction false} DecimalRoundTrip(n: nat)
    ensures DecimalValue(DecimalString(n)) == n
  {
    var s := DecimalString(n);
    if n >= 10 {
      DecimalRoundTrip(n / 10);
      assert s[..|s| - 1] == DecimalString(n / 10);
    }
  }

  /** Different numbers render differently, so a message carrying a count pins the count down. */
  lemma DecimalStringInjective(m: nat, n: nat)
    requires DecimalString(m) == DecimalString(n)
    ensures m == n
  {
    DecimalRoundTrip(m);
    DecimalRoundTrip(n);
  }

  /** Long.toString(): a minus sign in front of the digits of a negative value. */
  function IntString(i: int): (r: string)
    ensures i >= 0 ==> r == DecimalString(i)
    ensures i < 0 ==> r == "-" + DecimalString(-i)
  {
    if i < 0 then "-" + DecimalString(-i) else DecimalString(i)
  }

  /** Path parsing drops the '/' characters that end a path: "a/b/" is the path "a/b". */
  function StripTrailingSlashes(p: string): (r: string)
    ensures |r| <= |p| && r == p[..|r|]
    ensures |r| > 0 ==> r[|r| - 1] != '/'
    ensures forall k :: |r| <= k < |p| ==> p[k] == '/'
  {
    if |p| > 0 && p[|p| - 1] == '/' then StripTrailingSlashes(p[..|p| - 1]) else p
  }

  /** Stripping reaches into `b` only: `a` survives whole when it does not end in '/' or `b` keeps something. */
  lemma {:induction false} StripTrailingSlashesAppend(a: string, b: string)
    requires (|a| > 0 && a[|a| - 1] != '/') || |StripTrailingSlashes(b)| > 0
    ensures StripTrailingSlashes(a + b) == a + StripTrailingSlashes(b)
  {
    if |b| == 0 {
      assert a + b == a;
    } else if b[|b| - 1] == '/' {
      assert (a + b)[..|a + b| - 1] == a + b[..|b| - 1];
      StripTrailingSlashesAppend(a, b[..|b| - 1]);
    }
  }

  /** The part of `p` after its last '/', or all of `p` when it has none. */
  function LastSegment(p: string): string {
    if |p| == 0 then p
    else if p[|p| - 1] == '/' then []
    else LastSegment(p[..|p| - 1]) + [p[|p| - 1]]
  }

  /** LastSegment is a '/'-free suffix, preceded by a '/' unless it is the whole string. */
  lemma {:induction false} LastSegmentShape(p: string)
    ensures '/' !in LastSegment(p)
    ensures |LastSegment(p)| <= |p| && LastSegment(p) == p[|p| - |LastSegment(p)|..]
    ensures |LastSegment(p)| < |p| ==> p[|p| - |LastSegment(p)| - 1] == '/'
  {
    if |p| > 0 && p[|p| - 1] != '/' {
      var q := p[..|p| - 1];
      LastSegmentShape(q);
      var r, rq := LastSegment(p), LastSegment(q);
      assert r == rq + [p[|p| - 1]];
      assert p[|p| - |r|..] == q[|q| - |rq|..] + [p[|p| - 1]];
      forall k | 0 <= k < |r| ensures r[k] != '/' {
        if k < |rq| {
          assert r[k] == rq[k];
        }
      }
    }
  }

  /** A '/'-free name is its own last segment under any directory prefix ending in '/'. */
  lemma {:induction false} LastSegmentUnder(dir: string, name: string)
    requires |dir| > 0 && dir[|dir| - 1] == '/'
    requires '/' !in name
    ensures LastSegment(dir + name) == name
  {
    if |name| > 0 {
      var p := dir + name;
      assert p[..|p| - 1] == dir + name[..|name| - 1];
      LastSegmentUnder(dir, name[..|name| - 1]);
      assert name == name[..|name| - 1] + [name[|name| - 1]];
    } else {
      assert dir + name == dir;
    }
  }

  /**
   * Path.getFileName() of `p`: the last name element of the parsed path, so
   * trailing '/' characters are dropped before the last segment is taken.
   */
  function FileName(p: string): string {
    LastSegment(StripTrailingSlashes(p))
  }

  /** "x/" and "x" have the same file name. */
  lemma FileNameIgnoresTrailingSlash(p: string)
    ensures FileName(p + "/") == FileName(p)
  {
    assert (p + "/")[..|p|] == p;
  }

  /**
   * FileName is the part of the path after its last '/' once trailing '/' are
   * dropped (all of it when there is none), and it holds no '/'.
   */
  lemma FileNameIsLastSegment(p: string)
    ensures '/' !in FileName(p)
    ensures var s := StripTrailingSlashes(p);
            |FileName(p)| <= |s| && FileName(p) == s[|s| - |FileName(p)|..]
            && (|FileName(p)| < |s| ==> s[|s| - |FileName(p)| - 1] == '/')
    ensures forall k :: |StripTrailingSlashes(p)| <= k < |p| ==> p[k] == '/'
  {
    var s := StripTrailingSlashes(p);
    LastSegmentShape(s);
    assert FileName(p) == LastSegment(s);
  }

  /**
   * Under a directory prefix ending in '/', a name that holds no '/' apart
   * from trailing ones has that name, without them, as its file name.
   */
  lemma FileNameUnder(dir: string, name: string)
    requires |dir| > 0 && dir[|dir| - 1] == '/'
    requires '/' !in StripTrailingSlashes(name) && |StripTrailingSlashes(name)| > 0
    ensures FileName(dir + name) == StripTrailingSlashes(name)
  {
    StripTrailingSlashesAppend(dir, name);
    LastSegmentUnder(dir, StripTrailingSlashes(name));
  }
}
