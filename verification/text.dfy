/** The Python string operations the accessor generator relies on (`str.split`, `str.strip`,
    `str.replace`, `str.lower`, `str.upper`, `in`, `int`), on strings of characters. Case mapping
    and whitespace are those of ASCII. */
module Text {
  import opened Results

  /** `sub in s`. */
  predicate Contains(s: string, sub: string)
    decreases |s|
  {
    (|sub| <= |s| && s[..|sub|] == sub) || (|s| > 0 && Contains(s[1..], sub))
  }

  /** A string made only of whitespace contains nothing that starts with a visible character. */
  lemma {:induction false} BlankContainsNothing(s: string, sub: string)
    requires AllSpace(s) && |sub| > 0 && !IsSpace(sub[0])
    ensures !Contains(s, sub)
    decreases |s|
  {
    if |s| > 0 {
      assert !IsSpace(s[0]) ==> false;
      BlankContainsNothing(s[1..], sub);
    }
  }

  // ---- split and join ----

  /** `s.split(sep)` for a one-character separator: always at least one piece. */
  function Split(s: string, sep: char): (r: seq<string>)
    ensures |r| >= 1
    decreases |s|
  {
    if s == [] then [[]]
    else
      var rest := Split(s[1..], sep);
      if s[0] == sep then [[]] + rest else [[s[0]] + rest[0]] + rest[1..]
  }

  /** `sep.join(pieces)`. */
  function Join(pieces: seq<string>, sep: char): string
    requires |pieces| >= 1
    decreases |pieces|
  {
    if |pieces| == 1 then pieces[0] else pieces[0] + [sep] + Join(pieces[1..], sep)
  }

  predicate Free(pieces: seq<string>, sep: char)
  {
    forall i :: 0 <= i < |pieces| ==> sep !in pieces[i]
  }

  /** Splitting loses nothing: the pieces joined back give the line. */
  lemma {:induction false} SplitJoin(s: string, sep: char)
    ensures Join(Split(s, sep), sep) == s
    ensures Free(Split(s, sep), sep)
    decreases |s|
  {
    if s != [] {
      var rest := Split(s[1..], sep);
      SplitJoin(s[1..], sep);
      if s[0] == sep {
        assert Split(s, sep)[1..] == rest;
        assert Join(Split(s, sep), sep) == [] + [sep] + Join(rest, sep);
      } else if |rest| == 1 {
        assert Split(s, sep) == [[s[0]] + rest[0]];
      } else {
        var r := Split(s, sep);
        assert r[1..] == rest[1..];
        assert Join(rest, sep) == rest[0] + [sep] + Join(rest[1..], sep);
        assert Join(r, sep) == [s[0]] + rest[0] + [sep] + Join(rest[1..], sep);
        forall i | 0 <= i < |r|
          ensures sep !in r[i]
        {
          if i > 0 {
            assert r[i] == rest[i];
          }
        }
      }
    }
  }

  /** Joining pieces free of the separator and splitting again gives the pieces back. */
  lemma {:induction false} JoinSplit(pieces: seq<string>, sep: char)
    requires |pieces| >= 1 && Free(pieces, sep)
    ensures Split(Join(pieces, sep), sep) == pieces
    decreases |pieces|, |pieces[0]|
  {
    var p := pieces[0];
    if |pieces| == 1 {
      SplitFree(p, sep);
    } else if p == [] {
      var j := Join(pieces, sep);
      assert j == [sep] + Join(pieces[1..], sep);
      assert j[1..] == Join(pieces[1..], sep);
      JoinSplit(pieces[1..], sep);
      assert pieces == [[]] + pieces[1..];
    } else {
      var j := Join(pieces, sep);
      var shorter := [p[1..]] + pieces[1..];
      assert shorter[1..] == pieces[1..];
      assert Free(shorter, sep) by {
        forall i | 0 <= i < |shorter|
          ensures sep !in shorter[i]
        {
          if i == 0 {
            assert forall c :: c in p[1..] ==> c in p;
          } else {
            assert shorter[i] == pieces[i];
          }
        }
      }
      assert j[1..] == Join(shorter, sep) by {
        if |pieces| == 1 {
        } else {
          assert Join(shorter, sep) == p[1..] + [sep] + Join(pieces[1..], sep);
        }
      }
      JoinSplit(shorter, sep);
      assert j[0] == p[0] && p[0] != sep;
      assert [p[0]] + p[1..] == p;
      assert pieces == [p] + shorter[1..];
    }
  }

  lemma {:induction false} SplitFree(s: string, sep: char)
    requires sep !in s
    ensures Split(s, sep) == [s]
    decreases |s|
  {
    if s != [] {
      assert s[0] != sep;
      assert forall c :: c in s[1..] ==> c in s;
      SplitFree(s[1..], sep);
      assert [s[0]] + s[1..] == s;
    }
  }

  // ---- whitespace ----

  /** Python's whitespace among the ASCII characters. */
  predicate IsSpace(c: char)
  {
    c == ' ' || c == '\t' || c == '\n' || c == '\r' || c == '\U{000B}' || c == '\U{000C}'
    || c == '\U{001C}' || c == '\U{001D}' || c == '\U{001E}' || c == '\U{001F}'
  }

  predicate AllSpace(s: string)
  {
    forall i :: 0 <= i < |s| ==> IsSpace(s[i])
  }

  function TrimStart(s: string): (r: string)
    ensures |r| <= |s| && r == s[|s| - |r|..] && AllSpace(s[..|s| - |r|])
    ensures r == [] || !IsSpace(r[0])
    decreases |s|
  {
    if s != [] && IsSpace(s[0]) then TrimStart(s[1..]) else s
  }

  function TrimEnd(s: string): (r: string)
    ensures |r| <= |s| && r == s[..|r|] && AllSpace(s[|r|..])
    ensures r == [] || !IsSpace(r[|r| - 1])
    decreases |s|
  {
    if s != [] && IsSpace(s[|s| - 1]) then TrimEnd(s[..|s| - 1]) else s
  }

  /** `s.strip()`. */
  function Strip(s: string): string
  {
    TrimEnd(TrimStart(s))
  }

  /** What `strip` leaves is a slice of the input from which only whitespace was cut at either end;
      it neither starts nor ends with whitespace, and it is empty exactly for a blank string. */
  lemma StripResult(s: string)
    ensures exists i, j :: 0 <= i <= j <= |s| && Strip(s) == s[i..j] && AllSpace(s[..i]) && AllSpace(s[j..])
    ensures var r := Strip(s);
      (r == [] || (!IsSpace(r[0]) && !IsSpace(r[|r| - 1]))) && (r == [] <==> AllSpace(s))
  {
    var i, j := StripSlice(s);
    var t := TrimStart(s);
    var r := TrimEnd(t);
    if r != [] {
      assert r[0] == t[0];
    }
    if AllSpace(s) {
      TrimStartBlank(s);
    } else {
      var i :| 0 <= i < |s| && !IsSpace(s[i]);
      TrimStartKeeps(s, i);
      assert t != [] && !IsSpace(t[0]);
      TrimEndKeepsFirst(t);
    }
  }

  /** Where the stripped string sits in the input. */
  lemma StripSlice(s: string) returns (i: nat, j: nat)
    ensures i <= j <= |s| && Strip(s) == s[i..j] && AllSpace(s[..i]) && AllSpace(s[j..])
  {
    var t := TrimStart(s);
    var r := TrimEnd(t);
    i, j := |s| - |t|, |s| - |t| + |r|;
    assert s[i..] == t;
    assert r == t[..|r|];
    assert s[j..] == t[|r|..];
  }

  lemma {:induction false} TrimStartBlank(s: string)
    requires AllSpace(s)
    ensures TrimStart(s) == []
    decreases |s|
  {
    if s != [] {
      TrimStartBlank(s[1..]);
    }
  }

  lemma {:induction false} TrimStartKeeps(s: string, i: nat)
    requires i < |s| && !IsSpace(s[i])
    ensures TrimStart(s) != []
    decreases |s|
  {
    if IsSpace(s[0]) {
      TrimStartKeeps(s[1..], i - 1);
    }
  }

  lemma {:induction false} TrimEndKeepsFirst(s: string)
    requires s != [] && !IsSpace(s[0])
    ensures TrimEnd(s) != []
    decreases |s|
  {
    if IsSpace(s[|s| - 1]) {
      TrimEndKeepsFirst(s[..|s| - 1]);
    }
  }

  // ---- replace ----

  /** `s.replace(from, to)`: every occurrence, left to right, without overlaps. */
  function Replace(s: string, from: string, to: string): string
    requires |from| > 0
    decreases |s|
  {
    if |s| < |from| then s
    else if s[..|from|] == from then to + Replace(s[|from|..], from, to)
    else [s[0]] + Replace(s[1..], from, to)
  }

  /** Every character of a replacement comes from the string or from the substitute. */
  lemma {:induction false} ReplaceChars(s: string, from: string, to: string, c: char)
    requires |from| > 0
    ensures c in Replace(s, from, to) ==> c in s || c in to
    decreases |s|
  {
    if |s| >= |from| {
      if s[..|from|] == from {
        ReplaceChars(s[|from|..], from, to, c);
        assert forall x :: x in s[|from|..] ==> x in s;
      } else {
        ReplaceChars(s[1..], from, to, c);
        assert forall x :: x in s[1..] ==> x in s;
      }
    }
  }

  /** A prefix without the pattern's first character is copied as it is. */
  lemma {:induction false} ReplaceSkip(p: string, q: string, from: string, to: string)
    requires |from| > 0 && from[0] !in p
    ensures Replace(p + q, from, to) == p + Replace(q, from, to)
    decreases |p|
  {
    if p != [] {
      var s := p + q;
      assert s[1..] == p[1..] + q;
      assert forall c :: c in p[1..] ==> c in p;
      ReplaceSkip(p[1..], q, from, to);
      if |s| < |from| {
        assert Replace(p[1..] + q, from, to) == p[1..] + q;
        assert Replace(s, from, to) == s;
      } else {
        assert s[..|from|][0] == p[0];
        assert Replace(s, from, to) == [p[0]] + Replace(p[1..] + q, from, to);
      }
      assert [p[0]] + p[1..] == p;
    } else {
      assert p + q == q;
    }
  }

  /** Replacing a character by a string without it removes it altogether. */
  lemma {:induction false} ReplaceRemoves(s: string, c: char, to: string)
    requires c !in to
    ensures c !in Replace(s, [c], to)
    decreases |s|
  {
    if |s| >= 1 {
      ReplaceRemoves(s[1..], c, to);
      if s[..1] != [c] {
        assert s[0] != c;
      }
    }
  }

  // ---- case ----

  predicate IsUpper(c: char) { 'A' <= c <= 'Z' }
  predicate IsLower(c: char) { 'a' <= c <= 'z' }

  function LowerChar(c: char): char
  {
    if IsUpper(c) then (c as int - 'A' as int + 'a' as int) as char else c
  }

  function UpperChar(c: char): char
  {
    if IsLower(c) then (c as int - 'a' as int + 'A' as int) as char else c
  }

  /** `s.lower()`. */
  function Lower(s: string): (r: string)
    ensures |r| == |s|
  {
    seq(|s|, i requires 0 <= i < |s| => LowerChar(s[i]))
  }

  /** `s.upper()`. */
  function Upper(s: string): (r: string)
    ensures |r| == |s|
  {
    seq(|s|, i requires 0 <= i < |s| => UpperChar(s[i]))
  }

  /** Lowering leaves no capital, changes only capitals, and maps them to the matching small letter. */
  lemma LowerResult(s: string)
    ensures forall i :: 0 <= i < |s| ==> !IsUpper(Lower(s)[i])
    ensures forall i :: 0 <= i < |s| && !IsUpper(s[i]) ==> Lower(s)[i] == s[i]
    ensures forall i :: 0 <= i < |s| && IsUpper(s[i]) ==> IsLower(Lower(s)[i]) && UpperChar(Lower(s)[i]) == s[i]
  {
  }

  /** Raising leaves no small letter, changes only small letters, and maps them to the matching
      capital. */
  lemma UpperResult(s: string)
    ensures forall i :: 0 <= i < |s| ==> !IsLower(Upper(s)[i])
    ensures forall i :: 0 <= i < |s| && !IsLower(s[i]) ==> Upper(s)[i] == s[i]
    ensures forall i :: 0 <= i < |s| && IsLower(s[i]) ==> IsUpper(Upper(s)[i]) && LowerChar(Upper(s)[i]) == s[i]
  {
  }

  // ---- int() ----

  predicate IsDigit(c: char) { '0' <= c <= '9' }

  predicate IsDigits(s: string)
  {
    |s| > 0 && forall i :: 0 <= i < |s| ==> IsDigit(s[i])
  }

  function DigitsValue(s: string): nat
    requires forall i :: 0 <= i < |s| ==> IsDigit(s[i])
    decreases |s|
  {
    if s == [] then 0
    else
      var last := s[|s| - 1];
      assert IsDigit(last);
      10 * DigitsValue(s[..|s| - 1]) + (last as int - '0' as int)
  }

  /** `int(s)` for a decimal numeral with an optional sign; anything else raises ValueError. */
  function ParseInt(s: string): Option<int>
  {
    if |s| > 0 && (s[0] == '-' || s[0] == '+') then
      if IsDigits(s[1..]) then
        var magnitude: int := DigitsValue(s[1..]);
        Some(if s[0] == '-' then -magnitude else magnitude)
      else None
    else if IsDigits(s) then Some(DigitsValue(s))
    else None
  }

  /** The decimal numeral of n, as the documentation tables write addresses and sizes. */
  function Decimal(n: nat): (r: string)
    ensures IsDigits(r)
    decreases n
  {
    (if n < 10 then [] else Decimal(n / 10)) + [('0' as int + n % 10) as char]
  }

  /** `int` reads back every numeral `Decimal` writes. */
  lemma {:induction false} ParseDecimal(n: nat)
    ensures ParseInt(Decimal(n)) == Some(n)
    decreases n
  {
    DecimalValue(n);
  }

  lemma {:induction false} DecimalValue(n: nat)
    ensures DigitsValue(Decimal(n)) == n
    decreases n
  {
    var k := n % 10;
    var front := if n < 10 then [] else Decimal(n / 10);
    var c := ('0' as int + k) as char;
    assert Decimal(n) == front + [c];
    DigitChar(k);
    AppendDigit(front, c);
    if n >= 10 {
      DecimalValue(n / 10);
      assert n == 10 * (n / 10) + k;
    }
  }

  lemma DigitChar(k: nat)
    requires k < 10
    ensures IsDigit(('0' as int + k) as char) && (('0' as int + k) as char) as int - '0' as int == k
  {
  }

  lemma AppendDigit(front: string, c: char)
    requires forall i :: 0 <= i < |front| ==> IsDigit(front[i])
    requires IsDigit(c)
    ensures DigitsValue(front + [c]) == 10 * DigitsValue(front) + (c as int - '0' as int)
  {
    var d := front + [c];
    assert d[..|d| - 1] == front && d[|d| - 1] == c;
  }
}
