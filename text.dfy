/** The parts of Go's strings and strconv packages that the sender relies on,
    over strings of Unicode code points. */
module Text {
  import opened Wrappers

  // ---------------------------------------------------------------------------
  // strings.Split with a one-character separator

  /** Number of occurrences of c in s. */
  function Count(s: string, c: char): nat
  {
    if s == [] then 0 else (if s[0] == c then 1 else 0) + Count(s[1..], c)
  }

  /** The pieces of s between occurrences of sep, like strings.Split(s, sep):
      an empty s gives one empty piece, and there is always one piece more
      than there are separators. */
  function Split(s: string, sep: char): (parts: seq<string>)
    ensures |parts| == Count(s, sep) + 1
    ensures forall k :: 0 <= k < |parts| ==> sep !in parts[k]
  {
    if s == [] then [""]
    else
      var rest := Split(s[1..], sep);
      if s[0] == sep then [""] + rest
      else [[s[0]] + rest[0]] + rest[1..]
  }

  /** The inverse of Split: the pieces glued back with sep between them. */
  function Join(parts: seq<string>, sep: char): string
  {
    if parts == [] then ""
    else if |parts| == 1 then parts[0]
    else parts[0] + [sep] + Join(parts[1..], sep)
  }

  /** Splitting loses nothing: joining the pieces gives the input back. */
  lemma {:induction false} JoinSplit(s: string, sep: char)
    ensures Join(Split(s, sep), sep) == s
  {
    if s != [] {
      var rest := Split(s[1..], sep);
      JoinSplit(s[1..], sep);
      if s[0] == sep {
        assert Split(s, sep) == [""] + rest;
        assert Join([""] + rest, sep) == "" + [sep] + Join(rest, sep);
      } else {
        var parts := Split(s, sep);
        assert parts == [[s[0]] + rest[0]] + rest[1..];
        if |rest| == 1 {
          assert Join(parts, sep) == [s[0]] + rest[0];
        } else {
          assert Join(rest, sep) == rest[0] + [sep] + Join(rest[1..], sep);
          assert parts[1..] == rest[1..];
        }
      }
    }
  }

  /** Joining four pieces. */
  lemma JoinFour(a: string, b: string, c: string, d: string, sep: char)
    ensures Join([a, b, c, d], sep) == a + [sep] + b + [sep] + c + [sep] + d
  {
    assert [a, b, c, d][1..] == [b, c, d] && [b, c, d][1..] == [c, d] && [c, d][1..] == [d];
    assert Join([c, d], sep) == c + [sep] + d;
    assert Join([b, c, d], sep) == b + [sep] + (c + [sep] + d);
    assert Join([a, b, c, d], sep) == a + [sep] + (b + [sep] + (c + [sep] + d));
  }

  /** A piece without the separator, followed by the separator, is split off whole. */
  lemma {:induction false} SplitPrefix(p: string, sep: char, t: string)
    requires sep !in p
    ensures Split(p + [sep] + t, sep) == [p] + Split(t, sep)
  {
    if p == [] {
      assert [] + [sep] + t == [sep] + t;
      assert ([sep] + t)[1..] == t;
    } else {
      var s := p + [sep] + t;
      assert s[1..] == p[1..] + [sep] + t;
      SplitPrefix(p[1..], sep, t);
      assert [p[0]] + p[1..] == p;
    }
  }

  /** A string without the separator is a single piece. */
  lemma {:induction false} SplitWhole(p: string, sep: char)
    requires sep !in p
    ensures Split(p, sep) == [p]
  {
    if p != [] {
      SplitWhole(p[1..], sep);
      assert [p[0]] + p[1..] == p;
    }
  }

  /** Joining pieces that do not contain the separator and splitting again gives the pieces back. */
  lemma {:induction false} SplitJoin(parts: seq<string>, sep: char)
    requires |parts| >= 1
    requires forall k :: 0 <= k < |parts| ==> sep !in parts[k]
    ensures Split(Join(parts, sep), sep) == parts
  {
    if |parts| == 1 {
      SplitWhole(parts[0], sep);
    } else {
      SplitJoin(parts[1..], sep);
      SplitPrefix(parts[0], sep, Join(parts[1..], sep));
      assert [parts[0]] + parts[1..] == parts;
    }
  }

  // ---------------------------------------------------------------------------
  // strings.TrimSpace

  /** unicode.IsSpace: the Latin-1 spaces and the other White_Space code points. */
  predicate IsSpace(c: char)
  {
    c == ' ' || ('\t' <= c <= '\r') || c == '\U{85}' || c == '\U{A0}' || c == '\U{1680}'
    || ('\U{2000}' <= c <= '\U{200A}') || c == '\U{2028}' || c == '\U{2029}'
    || c == '\U{202F}' || c == '\U{205F}' || c == '\U{3000}'
  }

  /** s without its leading white space. */
  function TrimLeft(s: string): string
  {
    if s != [] && IsSpace(s[0]) then TrimLeft(s[1..]) else s
  }

  /** s without its trailing white space. */
  function TrimRight(s: string): string
  {
    if s != [] && IsSpace(s[|s| - 1]) then TrimRight(s[..|s| - 1]) else s
  }

  /** strings.TrimSpace: white space removed at both ends. */
  function TrimSpace(s: string): string
  {
    TrimRight(TrimLeft(s))
  }

  /** TrimLeft removes a prefix of white space and stops at the first other character. */
  lemma {:induction false} TrimLeftShape(s: string)
    ensures var r := TrimLeft(s);
      && |r| <= |s| && r == s[|s| - |r|..]
      && (r == [] || !IsSpace(r[0]))
      && forall k :: 0 <= k < |s| - |r| ==> IsSpace(s[k])
  {
    if s != [] && IsSpace(s[0]) {
      var rest := s[1..];
      TrimLeftShape(rest);
      var r := TrimLeft(rest);
      assert TrimLeft(s) == r;
      assert rest[|rest| - |r|..] == s[|s| - |r|..];
      forall k | 0 <= k < |s| - |r|
        ensures IsSpace(s[k])
      {
        if k > 0 {
          assert s[k] == rest[k - 1];
        }
      }
    }
  }

  /** TrimRight removes a suffix of white space and stops at the last other character. */
  lemma {:induction false} TrimRightShape(s: string)
    ensures var r := TrimRight(s);
      && |r| <= |s| && r == s[..|r|]
      && (r == [] || !IsSpace(r[|r| - 1]))
      && forall k :: |r| <= k < |s| ==> IsSpace(s[k])
  {
    if s != [] && IsSpace(s[|s| - 1]) {
      TrimRightShape(s[..|s| - 1]);
    }
  }

  /** TrimSpace keeps a slice of s and drops only white space before and
      after it; the slice has no white space at either end, so it is the
      longest such slice. A string without white space at its ends is its
      own trimmed form (so trimming is idempotent). */
  lemma TrimSpaceShape(s: string)
    ensures exists i, j ::
              && 0 <= i <= j <= |s| && TrimSpace(s) == s[i..j]
              && (forall p :: 0 <= p < i ==> IsSpace(s[p]))
              && (forall p :: j <= p < |s| ==> IsSpace(s[p]))
    ensures var r := TrimSpace(s); r == [] || (!IsSpace(r[0]) && !IsSpace(r[|r| - 1]))
    ensures s == [] || (!IsSpace(s[0]) && !IsSpace(s[|s| - 1])) ==> TrimSpace(s) == s
  {
    TrimLeftShape(s);
    var l := TrimLeft(s);
    TrimRightShape(l);
    var r := TrimRight(l);
    var i := |s| - |l|;
    var j := i + |r|;
    assert r == s[i..j];
    forall p | j <= p < |s|
      ensures IsSpace(s[p])
    {
      assert s[p] == l[p - i];
    }
    if r != [] {
      assert r[0] == l[0];
    }
  }

  // ---------------------------------------------------------------------------
  // strconv.Atoi and the syntax strconv.ParseFloat accepts

  predicate IsDigit(c: char) { '0' <= c <= '9' }

  predicate AllDigits(s: string) { forall k :: 0 <= k < |s| ==> IsDigit(s[k]) }

  /** The value of a decimal digit string, most significant digit first. */
  function DigitsValue(s: string): nat
    requires AllDigits(s)
  {
    if s == [] then 0 else 10 * DigitsValue(s[..|s| - 1]) + (s[|s| - 1] - '0') as nat
  }

  /** An optional sign followed by at least one decimal digit. */
  predicate IsInteger(s: string)
  {
    if s != [] && (s[0] == '+' || s[0] == '-') then s[1..] != [] && AllDigits(s[1..])
    else s != [] && AllDigits(s)
  }

  /** strconv.Atoi, without its 64-bit range check: the value of a signed
      decimal integer, or None on a syntax error. */
  function Atoi(s: string): (r: Option<int>)
    ensures r.Some? <==> IsInteger(s)
    ensures r.Some? && AllDigits(s) ==> r.value == DigitsValue(s)
    ensures r.Some? && s[0] == '-' ==> r.value == -(DigitsValue(s[1..]) as int)
    ensures r.Some? && s[0] == '+' ==> r.value == DigitsValue(s[1..])
  {
    if s != [] && (s[0] == '+' || s[0] == '-') then
      var d := s[1..];
      if d != [] && AllDigits(d) then Some(if s[0] == '-' then -(DigitsValue(d) as int) else DigitsValue(d))
      else None
    else if s != [] && AllDigits(s) then Some(DigitsValue(s))
    else None
  }

  /** The decimal numerals strconv.ParseFloat accepts: an optional sign, digits
      with at most one decimal point and at least one digit, and an optional
      exponent made of 'e' or 'E', an optional sign and at least one digit. */
  predicate IsFloat(s: string)
  {
    var body := if s != [] && (s[0] == '+' || s[0] == '-') then s[1..] else s;
    var e := ExponentStart(body);
    IsMantissa(body[..e]) && (e == |body| || IsExponent(body[e + 1..]))
  }

  /** Index of the first 'e' or 'E' in s, or |s| when there is none. */
  function ExponentStart(s: string): (e: nat)
    ensures e <= |s|
    ensures e < |s| ==> s[e] == 'e' || s[e] == 'E'
    ensures forall k :: 0 <= k < e ==> s[k] != 'e' && s[k] != 'E'
  {
    if s == [] then 0 else if s[0] == 'e' || s[0] == 'E' then 0 else 1 + ExponentStart(s[1..])
  }

  /** Without 'e' or 'E' the whole string is mantissa. */
  lemma {:induction false} ExponentStartNone(s: string)
    requires forall k :: 0 <= k < |s| ==> s[k] != 'e' && s[k] != 'E'
    ensures ExponentStart(s) == |s|
  {
    if s != [] {
      ExponentStartNone(s[1..]);
    }
  }

  /** Digits with at most one '.', and at least one digit. */
  predicate IsMantissa(m: string)
  {
    var parts := Split(m, '.');
    |parts| <= 2 && (forall k :: 0 <= k < |parts| ==> AllDigits(parts[k]))
    && exists k :: 0 <= k < |parts| && parts[k] != []
  }

  predicate IsExponent(x: string)
  {
    IsInteger(x)
  }

  /** Digits, a point and digits make a float. */
  lemma DecimalIsFloat(a: string, b: string)
    requires a != [] && AllDigits(a) && AllDigits(b)
    ensures IsFloat(a + "." + b)
  {
    var m := a + "." + b;
    assert m == Join([a, b], '.');
    assert '.' !in a && '.' !in b by {
      assert forall k :: 0 <= k < |a| ==> a[k] != '.';
      assert forall k :: 0 <= k < |b| ==> b[k] != '.';
    }
    SplitJoin([a, b], '.');
    assert forall k :: 0 <= k < |m| ==> m[k] != 'e' && m[k] != 'E' by {
      forall k | 0 <= k < |m| ensures m[k] != 'e' && m[k] != 'E' {
        if k < |a| { assert m[k] == a[k]; }
        else if k > |a| { assert m[k] == b[k - |a| - 1]; }
      }
    }
    ExponentStartNone(m);
    assert m[..|m|] == m;
    assert Split(m, '.')[0] != [];
  }
}
