/** Byte-string helpers with the semantics of Go's `strings` and `bytes`
    packages as app/server.go uses them. A Dafny `string` stands for a Go
    string: one `char` per octet, so `|s|` is Go's `len(s)`. */
module Text {

  datatype Option<+T> = None | Some(value: T)

  const NUL: char := '\0'
  const CRLF: string := "\r\n"
  const CRLFCRLF: string := "\r\n\r\n"

  /** `t` occurs in `s` starting at offset `j`. */
  predicate OccursAt(s: string, t: string, j: int)
  {
    0 <= j && j + |t| <= |s| && s[j..j + |t|] == t
  }

  /** Leftmost occurrence of `t` in `s` at or after `from`. */
  function IndexFrom(s: string, t: string, from: nat): (r: Option<nat>)
    requires |t| > 0
    ensures r.Some? ==> from <= r.value && OccursAt(s, t, r.value)
    ensures r.Some? ==> forall j :: from <= j < r.value ==> !OccursAt(s, t, j)
    ensures r.None? ==> forall j :: from <= j ==> !OccursAt(s, t, j)
    decreases |s| - from
  {
    if from + |t| > |s| then None
    else if OccursAt(s, t, from) then Some(from)
    else IndexFrom(s, t, from + 1)
  }

  /** Go's `strings.Index`: the leftmost occurrence of a non-empty `t`. */
  function Index(s: string, t: string): (r: Option<nat>)
    requires |t| > 0
    ensures r.Some? ==> OccursAt(s, t, r.value) && forall j :: j < r.value ==> !OccursAt(s, t, j)
    ensures r.None? ==> forall j :: !OccursAt(s, t, j)
  {
    IndexFrom(s, t, 0)
  }

  /** Go's `strings.Contains` for a non-empty needle. */
  function Contains(s: string, t: string): (b: bool)
    requires |t| > 0
    ensures b <==> exists j :: OccursAt(s, t, j)
  {
    Index(s, t).Some?
  }

  /** Go's `strings.Split(s, sep)` for a non-empty separator: the pieces
      between successive leftmost, non-overlapping occurrences of `sep`. */
  function Split(s: string, sep: string): (parts: seq<string>)
    requires |sep| > 0
    ensures |parts| >= 1
    decreases |s|
  {
    match Index(s, sep)
    case None => [s]
    case Some(i) => [s[..i]] + Split(s[i + |sep|..], sep)
  }

  /** Go's `strings.Join`, the inverse of `Split`. */
  function Join(parts: seq<string>, sep: string): string
    requires |parts| >= 1
  {
    if |parts| == 1 then parts[0] else parts[0] + sep + Join(parts[1..], sep)
  }

  /** Every piece of `Split` is rejoined into the string it came from. */
  lemma {:induction false} JoinSplit(s: string, sep: string)
    requires |sep| > 0
    ensures Join(Split(s, sep), sep) == s
    decreases |s|
  {
    match Index(s, sep)
    case None =>
    case Some(i) =>
      var rest := s[i + |sep|..];
      JoinSplit(rest, sep);
      SplitAt(s, sep, i);
      JoinCons(s[..i], Split(rest, sep), sep);
  }

  /** `s` is the text before its first `sep`, the `sep`, and the rest, and
      `Split` makes the first of those its first piece. */
  lemma SplitAt(s: string, sep: string, i: nat)
    requires |sep| > 0 && Index(s, sep) == Some(i)
    ensures s == s[..i] + sep + s[i + |sep|..]
    ensures Split(s, sep) == [s[..i]] + Split(s[i + |sep|..], sep)
  {
    assert s[i..i + |sep|] == sep;
    assert s == s[..i] + s[i..i + |sep|] + s[i + |sep|..];
  }

  lemma JoinCons(first: string, rest: seq<string>, sep: string)
    requires |rest| >= 1
    ensures Join([first] + rest, sep) == first + sep + Join(rest, sep)
  {
    assert ([first] + rest)[1..] == rest;
  }

  /** The first piece of `Split` never contains the separator. */
  lemma SplitFirstHasNoSeparator(s: string, sep: string)
    requires |sep| > 0
    ensures !Contains(Split(s, sep)[0], sep)
  {
    match Index(s, sep)
    case None =>
    case Some(i) =>
      var p := s[..i];
      forall j | OccursAt(p, sep, j) ensures false {
        assert p[j..j + |sep|] == s[j..j + |sep|];
        assert OccursAt(s, sep, j);
      }
  }

  /** Text of `s` before the first `sep`, or all of `s`. */
  function Before(s: string, sep: string): (r: string)
    requires |sep| > 0
    ensures r <= s
  {
    match Index(s, sep)
    case None => s
    case Some(i) => s[..i]
  }

  lemma SplitFirstIsBefore(s: string, sep: string)
    requires |sep| > 0
    ensures Split(s, sep)[0] == Before(s, sep)
  {
  }

  /** Text of `s` after the first `sep`. */
  function After(s: string, sep: string): (r: string)
    requires |sep| > 0 && Contains(s, sep)
    ensures |r| < |s|
  {
    s[Index(s, sep).value + |sep|..]
  }

  /** The second piece of `Split` is the text between the first and the
      second `sep`. */
  lemma SplitSecondPiece(s: string, sep: string)
    requires |sep| > 0
    ensures |Split(s, sep)| >= 2 <==> Contains(s, sep)
    ensures Contains(s, sep) ==> Split(s, sep)[1] == Before(After(s, sep), sep)
  {
  }

  /** No piece of `Split` contains the separator. */
  lemma {:induction false} SplitPiecesHaveNoSeparator(s: string, sep: string, k: nat)
    requires |sep| > 0 && k < |Split(s, sep)|
    ensures !Contains(Split(s, sep)[k], sep)
    decreases |s|
  {
    match Index(s, sep)
    case None =>
    case Some(i) =>
      if k == 0 {
        SplitFirstHasNoSeparator(s, sep);
      } else {
        SplitPiecesHaveNoSeparator(s[i + |sep|..], sep, k - 1);
      }
  }

  /** An occurrence found in a substring is an occurrence in the whole. */
  lemma OccursInSlice(s: string, t: string, a: nat, b: nat, j: int)
    requires a <= b <= |s|
    requires OccursAt(s[a..b], t, j)
    ensures OccursAt(s, t, a + j)
  {
    forall k | 0 <= k < |t| ensures s[a + j..a + j + |t|][k] == t[k] {
      assert s[a..b][j..j + |t|][k] == t[k];
    }
  }

  /** A string without `t` has no `t` in any of its substrings. */
  lemma NotContainsSlice(s: string, t: string, a: nat, b: nat)
    requires |t| > 0 && a <= b <= |s|
    requires !Contains(s, t)
    ensures !Contains(s[a..b], t)
  {
    forall j | OccursAt(s[a..b], t, j) ensures OccursAt(s, t, a + j) {
      OccursInSlice(s, t, a, b, j);
    }
  }

  /** An occurrence with none before it is what `Index` finds. */
  lemma IndexIsFirst(s: string, t: string, i: nat)
    requires |t| > 0 && OccursAt(s, t, i)
    requires forall j :: 0 <= j < i ==> !OccursAt(s, t, j)
    ensures Index(s, t) == Some(i)
  {
  }

  /** Occurrences in `p + s` past the prefix `p` are occurrences in `s`. */
  lemma OccursAfterPrefix(p: string, s: string, t: string, j: int)
    requires 0 <= j
    ensures OccursAt(p + s, t, |p| + j) <==> OccursAt(s, t, j)
  {
    if j + |t| <= |s| {
      assert (p + s)[|p| + j..|p| + j + |t|] == s[j..j + |t|];
    }
  }

  /** When `t` does not start inside the prefix `p`, searching `p + s` is
      searching `s`. */
  lemma IndexPastPrefix(p: string, s: string, t: string)
    requires |t| > 0
    requires forall j :: 0 <= j < |p| ==> !OccursAt(p + s, t, j)
    ensures Index(s, t).Some? ==> Index(p + s, t) == Some(|p| + Index(s, t).value)
    ensures Index(s, t).None? ==> Index(p + s, t).None?
  {
    forall j | |p| <= j
      ensures OccursAt(p + s, t, j) <==> OccursAt(s, t, j - |p|)
    {
      OccursAfterPrefix(p, s, t, j - |p|);
    }
    if Index(s, t).Some? {
      IndexIsFirst(p + s, t, |p| + Index(s, t).value);
    }
  }

  /** No char of `s` is a CR or an LF. */
  predicate NoCrLf(s: string)
  {
    forall k :: 0 <= k < |s| ==> s[k] != '\r' && s[k] != '\n'
  }

  /** A separator is found right after a prefix that lacks its first char. */
  lemma IndexAfterFree(a: string, sep: string, b: string)
    requires |sep| > 0
    requires forall k :: 0 <= k < |a| ==> a[k] != sep[0]
    ensures Index(a + sep + b, sep) == Some(|a|)
  {
    var s := a + sep + b;
    assert s[|a|..|a| + |sep|] == sep;
    forall j | 0 <= j < |a| ensures !OccursAt(s, sep, j) {
      if j + |sep| <= |s| {
        assert s[j..j + |sep|][0] == a[j];
      }
    }
    IndexIsFirst(s, sep, |a|);
  }

  /** Splitting a text that starts with a piece free of the separator's
      first char: that piece comes first, then the pieces of the rest. */
  lemma SplitAfterFree(a: string, sep: string, b: string)
    requires |sep| > 0
    requires forall k :: 0 <= k < |a| ==> a[k] != sep[0]
    ensures Split(a + sep + b, sep) == [a] + Split(b, sep)
  {
    var s := a + sep + b;
    IndexAfterFree(a, sep, b);
    SplitAt(s, sep, |a|);
    assert s[..|a|] == a && s[|a| + |sep|..] == b;
  }

  /** In a text that starts with `sep`, a separator-free `word` and `sep`
      again, the third piece of `Split` is what follows, up to the next `sep`. */
  lemma ThirdPiece(s: string, sep: string, word: string)
    requires |sep| > 0 && sep + word + sep <= s
    requires forall k :: 0 <= k < |word| ==> word[k] != sep[0]
    ensures |Split(s, sep)| >= 3
    ensures Split(s, sep)[2] == Before(s[|word| + 2 * |sep|..], sep)
  {
    var p := sep + word + sep;
    var t2 := s[|p|..];
    var t1 := word + sep + t2;
    assert s == s[..|p|] + t2;
    assert s == [] + sep + t1;
    SplitAfterFree([], sep, t1);
    SplitAfterFree(word, sep, t2);
    var parts := Split(s, sep);
    assert parts == [[]] + ([word] + Split(t2, sep));
    assert parts[2] == Split(t2, sep)[0];
    SplitFirstIsBefore(t2, sep);
  }

  /** A separator starting with CR is found right after a CR-free prefix. */
  lemma IndexAfterCrFree(a: string, sep: string, b: string)
    requires |sep| > 0 && sep[0] == '\r' && NoCrLf(a)
    ensures Index(a + sep + b, sep) == Some(|a|)
  {
    IndexAfterFree(a, sep, b);
  }

  /** A CR-free string holds no CRLF. */
  lemma NoCrLfHasNoLineBreak(l: string)
    requires NoCrLf(l)
    ensures Index(l, CRLF).None?
  {
    forall j | 0 <= j ensures !OccursAt(l, CRLF, j) {
      if j + 2 <= |l| {
        assert l[j..j + 2][0] == l[j];
      }
    }
  }

  /** A CR-free line ended by a single CRLF holds no blank line. */
  lemma LineHasNoBlankLine(l: string)
    requires NoCrLf(l)
    ensures Index(l + CRLF, CRLFCRLF).None?
  {
    var w := l + CRLF;
    forall j | 0 <= j ensures !OccursAt(w, CRLFCRLF, j) {
      if j + 4 <= |w| {
        assert j < |l| && w[j] == l[j];
        assert w[j..j + 4][0] == w[j] && CRLFCRLF[0] == '\r';
      }
    }
  }

  /** Lines that are non-empty and free of CR and LF. */
  predicate PlainLines(lines: seq<string>)
  {
    forall k :: 0 <= k < |lines| ==> |lines[k]| > 0 && NoCrLf(lines[k])
  }

  /** `Split` on CRLF recovers the lines that `Join` put together. */
  lemma {:induction false} SplitJoinLines(lines: seq<string>)
    requires |lines| >= 1 && PlainLines(lines)
    ensures Split(Join(lines, CRLF), CRLF) == lines
    decreases |lines|
  {
    var l := lines[0];
    if |lines| == 1 {
      NoCrLfHasNoLineBreak(l);
    } else {
      var rest := Join(lines[1..], CRLF);
      var s := l + CRLF + rest;
      IndexAfterCrFree(l, CRLF, rest);
      assert s[..|l|] == l;
      assert s[|l| + 2..] == rest;
      SplitJoinLines(lines[1..]);
      assert lines == [l] + lines[1..];
    }
  }

  /** After a head of plain lines joined by CRLF, the first blank line
      (CRLF CRLF) is the one right after the head. */
  lemma {:induction false} BlankLineEndsHead(lines: seq<string>, body: string)
    requires |lines| >= 1 && PlainLines(lines)
    ensures Index(Join(lines, CRLF) + CRLFCRLF + body, CRLFCRLF) == Some(|Join(lines, CRLF)|)
    decreases |lines|
  {
    var l := lines[0];
    if |lines| == 1 {
      IndexAfterCrFree(l, CRLFCRLF, body);
    } else {
      var h' := Join(lines[1..], CRLF);
      var s' := h' + CRLFCRLF + body;
      var p := l + CRLF;
      var s := p + s';
      assert Join(lines, CRLF) + CRLFCRLF + body == s;
      BlankLineEndsHead(lines[1..], body);
      JoinStartsWithFirst(lines[1..]);
      forall j | 0 <= j < |p| ensures !OccursAt(s, CRLFCRLF, j) {
        if j + 4 > |s| {
        } else if j < |l| {
          assert s[j..j + 4][0] == l[j];
        } else if j == |l| {
          assert s[j + 2] == s'[0] == h'[0];
          assert s[j..j + 4][2] == h'[0] && CRLFCRLF[2] == '\r';
        } else {
          assert j == |l| + 1 && s[j] == p[j] == CRLF[1];
          assert s[j..j + 4][0] == '\n' && CRLFCRLF[0] == '\r';
        }
      }
      IndexPastPrefix(p, s', CRLFCRLF);
    }
  }

  lemma {:induction false} JoinStartsWithFirst(lines: seq<string>)
    requires |lines| >= 1 && |lines[0]| > 0
    ensures |Join(lines, CRLF)| > 0 && Join(lines, CRLF)[0] == lines[0][0]
  {
  }

  /** All chars of `s` are NUL. */
  predicate AllNul(s: string)
  {
    forall k :: 0 <= k < |s| ==> s[k] == NUL
  }

  /** Strips leading NULs: what remains is a suffix of `s` that does not start with NUL. */
  function TrimLeftNul(s: string): (r: string)
    ensures |r| <= |s| && r == s[|s| - |r|..] && AllNul(s[..|s| - |r|])
    ensures r == [] || r[0] != NUL
    decreases |s|
  {
    if |s| > 0 && s[0] == NUL then
      var r := TrimLeftNul(s[1..]);
      assert s[|s| - |r|..] == s[1..][|s| - 1 - |r|..];
      assert s[..|s| - |r|] == [NUL] + s[1..][..|s| - 1 - |r|];
      r
    else s
  }

  /** Strips trailing NULs: what remains is a prefix of `s` that does not end with NUL. */
  function TrimRightNul(s: string): (r: string)
    ensures |r| <= |s| && r == s[..|r|] && AllNul(s[|r|..])
    ensures r == [] || r[|r| - 1] != NUL
    decreases |s|
  {
    if |s| > 0 && s[|s| - 1] == NUL then
      var r := TrimRightNul(s[..|s| - 1]);
      assert s[..|r|] == s[..|s| - 1][..|r|];
      assert s[|r|..] == s[..|s| - 1][|r|..] + [NUL];
      r
    else s
  }

  /** Go's `bytes.Trim(s, "\x00")`: `s` without its leading and trailing NULs.
      The result is the slice of `s` that neither starts nor ends with NUL and
      has only NULs around it. */
  function TrimNul(s: string): (r: string)
    ensures r == [] || (r[0] != NUL && r[|r| - 1] != NUL)
    ensures exists a :: 0 <= a && a + |r| <= |s| && s[a..a + |r|] == r && AllNul(s[..a]) && AllNul(s[a + |r|..])
  {
    var l := TrimLeftNul(s);
    var r := TrimRightNul(l);
    TrimmedSlice(s, l, r);
    r
  }

  /** What the two trims leave is a slice of `s` with only NULs around it. */
  lemma TrimmedSlice(s: string, l: string, r: string)
    requires |l| <= |s| && l == s[|s| - |l|..] && AllNul(s[..|s| - |l|])
    requires |r| <= |l| && r == l[..|r|] && AllNul(l[|r|..])
    ensures var a := |s| - |l|;
      a + |r| <= |s| && s[a..a + |r|] == r && AllNul(s[..a]) && AllNul(s[a + |r|..])
  {
    var a := |s| - |l|;
    assert s[a..a + |r|] == l[..|r|];
    assert s[a + |r|..] == l[|r|..];
  }

  /** Trimming cannot create an occurrence of `t`. */
  lemma TrimNulKeepsAbsence(s: string, t: string)
    requires |t| > 0 && !Contains(s, t)
    ensures !Contains(TrimNul(s), t)
  {
    var l := TrimLeftNul(s);
    NotContainsSlice(s, t, |s| - |l|, |s|);
    assert s[|s| - |l|..|s|] == l;
    NotContainsSlice(l, t, 0, |TrimRightNul(l)|);
    assert l[0..|TrimRightNul(l)|] == TrimRightNul(l);
  }

  /** Go's `strings.ToLower` on ASCII letters. */
  function LowerChar(c: char): (d: char)
    ensures !('A' <= d <= 'Z')
    ensures 'A' <= c <= 'Z' ==> 'a' <= d <= 'z' && d as int - c as int == 'a' as int - 'A' as int
    ensures !('A' <= c <= 'Z') ==> d == c
  {
    if 'A' <= c <= 'Z' then (c as int - 'A' as int + 'a' as int) as char else c
  }

  function ToLower(s: string): (r: string)
    ensures |r| == |s|
    ensures forall k :: 0 <= k < |s| ==> r[k] == LowerChar(s[k])
  {
    seq(|s|, k requires 0 <= k < |s| => LowerChar(s[k]))
  }

  /** A lower-cased name is its own lower-case form. */
  lemma ToLowerIdempotent(s: string)
    ensures ToLower(ToLower(s)) == ToLower(s)
  {
  }

  /** `a` and `b` are the same char, or an ASCII letter in its two cases. */
  predicate SameLetterIgnoringCase(a: char, b: char)
  {
    || a == b
    || ('A' <= a <= 'Z' && b as int == a as int + 32)
    || ('A' <= b <= 'Z' && a as int == b as int + 32)
  }

  /** `s` and `t` differ at most in the case of ASCII letters. */
  predicate SameIgnoringCase(s: string, t: string)
  {
    |s| == |t| && forall k :: 0 <= k < |s| ==> SameLetterIgnoringCase(s[k], t[k])
  }

  /** Two names lower-case to the same key exactly when they differ at most
      in the case of ASCII letters. */
  lemma ToLowerIgnoresCase(s: string, t: string)
    ensures SameIgnoringCase(s, t) <==> ToLower(s) == ToLower(t)
  {
    if SameIgnoringCase(s, t) {
      forall k | 0 <= k < |s| ensures ToLower(s)[k] == ToLower(t)[k] {
        assert SameLetterIgnoringCase(s[k], t[k]);
      }
    }
    if ToLower(s) == ToLower(t) {
      forall k | 0 <= k < |s| ensures SameLetterIgnoringCase(s[k], t[k]) {
        assert LowerChar(s[k]) == ToLower(s)[k] == ToLower(t)[k] == LowerChar(t[k]);
      }
    }
  }

  predicate IsDigit(c: char)
  {
    '0' <= c <= '9'
  }

  function DigitChar(d: nat): (c: char)
    requires d < 10
    ensures IsDigit(c)
  {
    ('0' as int + d) as char
  }

  /** Decimal rendering of `n`, as `fmt`'s `%d` prints a non-negative int. */
  function Decimal(n: nat): (r: string)
    ensures |r| >= 1 && NoCrLf(r)
    ensures forall k :: 0 <= k < |r| ==> IsDigit(r[k])
    ensures |r| > 1 ==> r[0] != '0'
    decreases n
  {
    if n < 10 then [DigitChar(n)] else Decimal(n / 10) + [DigitChar(n % 10)]
  }

  /** Value of a non-empty run of decimal digits; None for anything else. */
  function ParseDecimal(s: string): (r: Option<nat>)
    ensures r.Some? ==> |s| > 0
    decreases |s|
  {
    if |s| == 0 || !IsDigit(s[|s| - 1]) then None
    else
      var d := (s[|s| - 1] as int - '0' as int) as nat;
      if |s| == 1 then Some(d)
      else match ParseDecimal(s[..|s| - 1])
        case None => None
        case Some(v) => Some(10 * v + d)
  }

  /** Reading back a decimal rendering gives the number that was printed. */
  lemma {:induction false} ParseDecimalOfDecimal(n: nat)
    ensures ParseDecimal(Decimal(n)) == Some(n)
    decreases n
  {
    if n >= 10 {
      var s := Decimal(n);
      assert s[..|s| - 1] == Decimal(n / 10);
      ParseDecimalOfDecimal(n / 10);
    }
  }
}
