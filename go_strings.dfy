/**
 * The few pieces of Go's standard library that the consolidation tool relies on,
 * restricted to ASCII: strings.TrimSpace, strings.ToLower, strings.Split with a
 * one-character separator, and the decimal rendering of an int by fmt's %d verb.
 * Join, IndexByte and ParseInt are not called by the tool: they are the
 * inverses the model uses to pin Split and %d down.
 */
module GoStrings {
  import opened Wrappers

  // ---------------------------------------------------------------------------
  // strings.TrimSpace
  // ---------------------------------------------------------------------------

  /** The ASCII white space that strings.TrimSpace removes: '\t', '\n', '\v', '\f', '\r', ' '. */
  predicate IsSpace(c: char) {
    c == ' ' || c == '\t' || c == '\n' || c == '\U{000B}' || c == '\U{000C}' || c == '\r'
  }

  ghost predicate AllSpace(s: string) {
    forall k :: 0 <= k < |s| ==> IsSpace(s[k])
  }

  /** A string with no white space at either end. */
  predicate IsTrimmed(s: string) {
    s == [] || (!IsSpace(s[0]) && !IsSpace(s[|s| - 1]))
  }

  /** The first position at or after `i` that is not white space, or |s|. */
  function SkipSpace(s: string, i: nat): (n: nat)
    requires i <= |s|
    ensures i <= n <= |s|
    ensures forall k :: i <= k < n ==> IsSpace(s[k])
    ensures n == |s| || !IsSpace(s[n])
    decreases |s| - i
  {
    if i == |s| || !IsSpace(s[i]) then i else SkipSpace(s, i + 1)
  }

  /** The end of the text before `j` once the white space before `j` is dropped, never below `lo`. */
  function SkipSpaceBack(s: string, lo: nat, j: nat): (e: nat)
    requires lo <= j <= |s|
    ensures lo <= e <= j
    ensures forall k :: e <= k < j ==> IsSpace(s[k])
    ensures e == lo || !IsSpace(s[e - 1])
    decreases j
  {
    if j == lo || !IsSpace(s[j - 1]) then j else SkipSpaceBack(s, lo, j - 1)
  }

  /** strings.TrimSpace over ASCII: `s` without its leading and trailing white space. */
  function TrimSpace(s: string): (r: string)
    ensures IsTrimmed(r)
    ensures |r| <= |s|
  {
    var i := SkipSpace(s, 0);
    s[i..SkipSpaceBack(s, i, |s|)]
  }

  /**
   * TrimSpace is fully determined: whenever `s` is a white-space prefix, a trimmed
   * middle and a white-space suffix, TrimSpace returns that middle.
   */
  lemma TrimSpaceUnique(s: string, p: string, m: string, q: string)
    requires s == p + m + q
    requires AllSpace(p) && AllSpace(q) && IsTrimmed(m)
    ensures TrimSpace(s) == m
  {
    var i := SkipSpace(s, 0);
    var e := SkipSpaceBack(s, i, |s|);
    assert forall k :: 0 <= k < |p| ==> s[k] == p[k];
    assert forall k :: |p| + |m| <= k < |s| ==> s[k] == q[k - |p| - |m|];
    if m == [] {
      assert i == |s|;
    } else {
      assert s[|p|] == m[0];
      assert i == |p|;
      assert s[|p| + |m| - 1] == m[|m| - 1];
      assert e == |p| + |m|;
      assert s[i..e] == m;
    }
  }

  /** Every string is a white-space prefix, its trimmed middle and a white-space suffix. */
  lemma TrimSpaceDecompose(s: string) returns (p: string, q: string)
    ensures s == p + TrimSpace(s) + q
    ensures AllSpace(p) && AllSpace(q)
  {
    var i := SkipSpace(s, 0);
    var e := SkipSpaceBack(s, i, |s|);
    p, q := s[..i], s[e..];
    assert s == p + s[i..e] + q;
  }

  lemma AllSpaceAppend(a: string, b: string)
    requires AllSpace(a) && AllSpace(b)
    ensures AllSpace(a + b)
  {
    forall k | 0 <= k < |a + b| ensures IsSpace((a + b)[k]) {
      if k >= |a| { assert (a + b)[k] == b[k - |a|]; }
    }
  }

  /** Surrounding white space never changes what TrimSpace returns. */
  lemma TrimSpaceIgnoresPadding(p: string, s: string, q: string)
    requires AllSpace(p) && AllSpace(q)
    ensures TrimSpace(p + s + q) == TrimSpace(s)
  {
    var m := TrimSpace(s);
    var p', q' := TrimSpaceDecompose(s);
    AllSpaceAppend(p, p');
    AllSpaceAppend(q', q);
    assert p + s + q == (p + p') + m + (q' + q);
    TrimSpaceUnique(p + s + q, p + p', m, q' + q);
  }

  /** Trimming twice is trimming once. */
  lemma TrimSpaceIdempotent(s: string)
    ensures TrimSpace(TrimSpace(s)) == TrimSpace(s)
  {
    var m := TrimSpace(s);
    assert m == [] + m + [];
    TrimSpaceUnique(m, [], m, []);
  }

  // ---------------------------------------------------------------------------
  // strings.ToLower
  // ---------------------------------------------------------------------------

  /** ASCII lower-casing of one character; every other character is unchanged. */
  function LowerChar(c: char): (d: char)
    ensures IsSpace(d) <==> IsSpace(c)
    ensures !('A' <= d <= 'Z')
  {
    if 'A' <= c <= 'Z' then (c as int + 32) as char else c
  }

  /** strings.ToLower over ASCII. */
  function ToLower(s: string): (r: string)
    ensures |r| == |s|
    ensures forall k :: 0 <= k < |s| ==> r[k] == LowerChar(s[k])
  {
    if s == [] then [] else [LowerChar(s[0])] + ToLower(s[1..])
  }

  /** Lower-casing a lower-cased string changes nothing. */
  lemma ToLowerIdempotent(s: string)
    ensures ToLower(ToLower(s)) == ToLower(s)
  {
  }

  /** ToLower works character by character, so it distributes over concatenation. */
  lemma ToLowerAppend(a: string, b: string)
    ensures ToLower(a + b) == ToLower(a) + ToLower(b)
  {
  }

  /** Trimming and lower-casing commute: lower-casing neither creates nor removes white space. */
  lemma TrimSpaceToLowerCommute(s: string)
    ensures TrimSpace(ToLower(s)) == ToLower(TrimSpace(s))
  {
    var m := TrimSpace(s);
    var p, q := TrimSpaceDecompose(s);
    ToLowerAppend(p + m, q);
    ToLowerAppend(p, m);
    var lm := ToLower(m);
    assert IsTrimmed(lm) by {
      if lm != [] {
        assert lm[0] == LowerChar(m[0]);
        assert lm[|lm| - 1] == LowerChar(m[|m| - 1]);
      }
    }
    assert AllSpace(ToLower(p)) by {
      forall k | 0 <= k < |p| ensures IsSpace(ToLower(p)[k]) {
        assert ToLower(p)[k] == LowerChar(p[k]);
      }
    }
    assert AllSpace(ToLower(q)) by {
      forall k | 0 <= k < |q| ensures IsSpace(ToLower(q)[k]) {
        assert ToLower(q)[k] == LowerChar(q[k]);
      }
    }
    TrimSpaceUnique(ToLower(s), ToLower(p), lm, ToLower(q));
  }

  // ---------------------------------------------------------------------------
  // strings.Split, and Join as its inverse
  // ---------------------------------------------------------------------------

  /**
   * strings.Split with a one-character separator: the pieces of `s` between
   * occurrences of `sep`. There is always one more piece than separators, so the
   * empty string splits into one empty piece.
   */
  function Split(s: string, sep: char): (pieces: seq<string>)
    ensures |pieces| >= 1
    ensures forall k :: 0 <= k < |pieces| ==> sep !in pieces[k]
  {
    if s == [] then [[]]
    else if s[0] == sep then [[]] + Split(s[1..], sep)
    else
      var rest := Split(s[1..], sep);
      [[s[0]] + rest[0]] + rest[1..]
  }

  /**
   * The pieces with `sep` between consecutive ones, as strings.Join writes
   * them. The tool never joins; this is the inverse that pins Split down.
   */
  function Join(pieces: seq<string>, sep: char): string
    requires |pieces| >= 1
  {
    if |pieces| == 1 then pieces[0] else pieces[0] + [sep] + Join(pieces[1..], sep)
  }

  /** Joining the pieces again gives back the string that was split. */
  lemma {:induction false} JoinSplit(s: string, sep: char)
    ensures Join(Split(s, sep), sep) == s
  {
    if s == [] {
    } else if s[0] == sep {
      JoinSplit(s[1..], sep);
      assert s == [sep] + s[1..];
    } else {
      var rest := Split(s[1..], sep);
      JoinSplit(s[1..], sep);
      var pieces := [[s[0]] + rest[0]] + rest[1..];
      if |rest| == 1 {
        assert Join(pieces, sep) == [s[0]] + rest[0];
      } else {
        assert pieces[1..] == rest[1..];
        assert Join(pieces, sep) == [s[0]] + (rest[0] + [sep] + Join(rest[1..], sep));
      }
      assert s == [s[0]] + s[1..];
    }
  }

  /** Splitting a join of separator-free pieces gives back the pieces. */
  lemma {:induction false} SplitJoin(pieces: seq<string>, sep: char)
    requires |pieces| >= 1
    requires forall k :: 0 <= k < |pieces| ==> sep !in pieces[k]
    ensures Split(Join(pieces, sep), sep) == pieces
    decreases |pieces|, |pieces[0]|
  {
    var head := pieces[0];
    if head == [] {
      if |pieces| == 1 {
      } else {
        var tail := Join(pieces[1..], sep);
        assert Join(pieces, sep) == [sep] + tail;
        SplitJoin(pieces[1..], sep);
        assert ([sep] + tail)[1..] == tail;
        assert pieces == [[]] + pieces[1..];
      }
    } else {
      var shorter := [head[1..]] + pieces[1..];
      assert shorter[1..] == pieces[1..];
      assert forall k :: 0 <= k < |shorter| ==> sep !in shorter[k] by {
        forall k | 0 <= k < |shorter| ensures sep !in shorter[k] {
          if k == 0 {
            assert forall c :: c in head[1..] ==> c in head;
          } else {
            assert shorter[k] == pieces[k];
          }
        }
      }
      SplitJoin(shorter, sep);
      var j := Join(pieces, sep);
      assert j == [head[0]] + Join(shorter, sep);
      assert head[0] in head;
      assert j[0] == head[0] && j[0] != sep;
      assert j[1..] == Join(shorter, sep);
      assert [head[0]] + head[1..] == head;
      assert pieces == [head] + pieces[1..];
    }
  }

  /**
   * The first position of `c` in `s`, or -1 when there is none (the contract of
   * strings.IndexByte). The tool never calls it; it serves the parser that
   * reads a merge commit message back.
   */
  function IndexByte(s: string, c: char): (i: int)
    ensures -1 <= i < |s|
    ensures i >= 0 ==> s[i] == c && c !in s[..i]
    ensures i == -1 ==> c !in s
  {
    if s == [] then -1
    else if s[0] == c then 0
    else
      var j := IndexByte(s[1..], c);
      if j == -1 then -1 else j + 1
  }

  // ---------------------------------------------------------------------------
  // fmt's %d for an int, and the inverse reading of a decimal
  // ---------------------------------------------------------------------------

  predicate IsDigit(c: char) {
    '0' <= c <= '9'
  }

  function DigitChar(d: nat): (c: char)
    requires d < 10
    ensures IsDigit(c) && c as int - '0' as int == d
  {
    ('0' as int + d) as char
  }

  /** The shortest decimal numeral of `n`, most significant digit first. */
  function Digits(n: nat): (s: string)
    ensures s != []
    ensures forall k :: 0 <= k < |s| ==> IsDigit(s[k])
  {
    if n < 10 then [DigitChar(n)] else Digits(n / 10) + [DigitChar(n % 10)]
  }

  /** fmt.Sprintf("%d", n): a minus sign for a negative number, then its digits. */
  function FormatInt(n: int): (s: string)
    ensures s != []
    ensures forall k :: 0 <= k < |s| ==> s[k] == '-' || IsDigit(s[k])
  {
    if n < 0 then "-" + Digits(-n) else Digits(n)
  }

  ghost predicate AllDigits(s: string) {
    forall k :: 0 <= k < |s| ==> IsDigit(s[k])
  }

  /** The value of a numeral made of decimal digits. */
  function DigitsValue(s: string): nat
    requires AllDigits(s)
  {
    if s == [] then 0 else 10 * DigitsValue(s[..|s| - 1]) + (s[|s| - 1] as int - '0' as int)
  }

  /** Reads back an optionally negative decimal numeral; None for anything else. */
  function ParseInt(s: string): Option<int> {
    if s != [] && s[0] == '-' then
      if |s| > 1 && AllDigitsExec(s[1..]) then Some(0 - DigitsValue(s[1..]) as int) else None
    else if s != [] && AllDigitsExec(s) then Some(DigitsValue(s))
    else None
  }

  function AllDigitsExec(s: string): (b: bool)
    ensures b <==> AllDigits(s)
  {
    forall k | 0 <= k < |s| :: IsDigit(s[k])
  }

  lemma {:induction false} DigitsValueOfDigits(n: nat)
    ensures DigitsValue(Digits(n)) == n
  {
    if n >= 10 {
      DigitsValueOfDigits(n / 10);
      var s := Digits(n);
      assert s[..|s| - 1] == Digits(n / 10);
    }
  }

  /** Reading back what %d wrote gives the number. */
  lemma ParseFormatInt(n: int)
    ensures ParseInt(FormatInt(n)) == Some(n)
  {
    if n < 0 {
      var s := FormatInt(n);
      assert s[1..] == Digits(-n);
      DigitsValueOfDigits(-n);
    } else {
      DigitsValueOfDigits(n);
    }
  }
}
