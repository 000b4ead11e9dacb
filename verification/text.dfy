/** The tokenizer and the two joiners of common.cpp (lines 20-64). Strings are
    character sequences; a delimiter string is read, as `find_first_of`
    reads it, as the set of its characters, and `std::string::npos` is the
    position one past the end. */
module Text {

  /** A token: non-empty and free of delimiter characters. */
  predicate Token(t: string, delims: string) {
    |t| > 0 && forall k :: 0 <= k < |t| ==> t[k] !in delims
  }

  /** Every character of `p` is a delimiter. */
  predicate AllDelims(p: string, delims: string) {
    forall k :: 0 <= k < |p| ==> p[k] in delims
  }

  /** `s.find_first_of(delims, from)`: the first position at or after `from`
      holding a delimiter, or |s| when there is none. */
  function FirstOf(s: string, delims: string, from: nat): (r: nat)
    requires from <= |s|
    ensures from <= r <= |s|
    ensures forall k :: from <= k < r ==> s[k] !in delims
    ensures r < |s| ==> s[r] in delims
    decreases |s| - from
  {
    if from == |s| || s[from] in delims then from else FirstOf(s, delims, from + 1)
  }

  /** `s.find_first_not_of(delims, from)`: the first position at or after
      `from` holding a non-delimiter, or |s| when there is none. */
  function FirstNotOf(s: string, delims: string, from: nat): (r: nat)
    requires from <= |s|
    ensures from <= r <= |s|
    ensures forall k :: from <= k < r ==> s[k] in delims
    ensures r < |s| ==> s[r] !in delims
    decreases |s| - from
  {
    if from == |s| || s[from] !in delims then from else FirstNotOf(s, delims, from + 1)
  }

  /** The maximal runs of non-delimiter characters of `s`, left to right:
      the reference the tokenizer is measured against. */
  function Runs(s: string, delims: string): (r: seq<string>)
    ensures forall k :: 0 <= k < |r| ==> Token(r[k], delims)
    decreases |s|
  {
    if |s| == 0 then []
    else if s[0] in delims then Runs(s[1..], delims)
    else
      var j := FirstOf(s, delims, 0);
      [s[..j]] + Runs(s[j..], delims)
  }

  /** `xs` without its first `k` elements; a negative `k` keeps nothing,
      since `split` then decrements its counter for ever. */
  function Dropped<T>(xs: seq<T>, k: int): seq<T> {
    if k < 0 || k >= |xs| then [] else xs[k..]
  }

  /** A run of delimiters in front changes nothing. */
  lemma {:induction false} RunsSkipPrefix(p: string, rest: string, delims: string)
    requires AllDelims(p, delims)
    ensures Runs(p + rest, delims) == Runs(rest, delims)
    decreases |p|
  {
    if |p| > 0 {
      assert (p + rest)[0] == p[0] && p[0] in delims;
      assert (p + rest)[1..] == p[1..] + rest;
      assert AllDelims(p[1..], delims) by {
        forall k | 0 <= k < |p[1..]|
          ensures p[1..][k] in delims
        {
          assert p[1..][k] == p[k + 1];
        }
      }
      RunsSkipPrefix(p[1..], rest, delims);
      assert Runs(p + rest, delims) == Runs(p[1..] + rest, delims);
    } else {
      assert p + rest == rest;
    }
  }

  lemma FirstOfShift(s: string, delims: string, i: nat)
    requires i <= |s|
    ensures FirstOf(s[i..], delims, 0) + i == FirstOf(s, delims, i)
  {
  }

  /** The run that starts at a non-delimiter at position `i`. */
  lemma RunAt(s: string, delims: string, i: nat)
    requires i < |s| && s[i] !in delims
    ensures Runs(s[i..], delims) == [s[i..FirstOf(s, delims, i)]] + Runs(s[FirstOf(s, delims, i)..], delims)
  {
    var j := FirstOf(s, delims, i);
    FirstOfShift(s, delims, i);
    assert s[i..][0] == s[i];
    assert s[i..][..j - i] == s[i..j];
    assert s[i..][j - i..] == s[j..];
  }

  lemma SkipDelims(s: string, delims: string, i: nat, j: nat)
    requires i <= j <= |s|
    requires forall k :: i <= k < j ==> s[k] in delims
    ensures Runs(s[i..], delims) == Runs(s[j..], delims)
  {
    assert s[i..] == s[i..j] + s[j..];
    RunsSkipPrefix(s[i..j], s[j..], delims);
  }

  /** One turn of the tokenizer's loop: the run at `lastPos` is emitted when
      the counter is 0 and consumed otherwise, and scanning resumes at the
      next non-delimiter. */
  lemma SplitStep(s: string, delims: string, lastPos: nat, skip: int)
    requires lastPos < |s| && s[lastPos] !in delims
    ensures var pos := FirstOf(s, delims, lastPos);
      var next := FirstNotOf(s, delims, pos);
      && lastPos < pos
      && Left(s, delims, lastPos, skip) ==
        if skip == 0 then [s[lastPos..pos]] + Left(s, delims, next, 0)
        else Left(s, delims, next, skip - 1)
  {
    var pos := FirstOf(s, delims, lastPos);
    var next := FirstNotOf(s, delims, pos);
    RunAt(s, delims, lastPos);
    SkipDelims(s, delims, pos, next);
    DroppedCons(s[lastPos..pos], Runs(s[next..], delims), skip);
  }

  lemma DroppedCons<T>(x: T, xs: seq<T>, k: int)
    ensures Dropped([x] + xs, k) == if k == 0 then [x] + Dropped(xs, 0) else Dropped(xs, k - 1)
  {
    if 0 < k <= |xs| {
      assert ([x] + xs)[k..] == xs[k - 1..];
    }
  }

  /** The tokens `split` still has to append when its scan is at `lastPos`
      with `skip` runs left to drop. */
  function Left(s: string, delims: string, lastPos: nat, skip: int): seq<string>
    requires lastPos <= |s|
  {
    Dropped(Runs(s[lastPos..], delims), skip)
  }

  /** One turn of `split`'s loop: the run between `lastPos` and `pos` is
      appended when the counter is 0 and counted off otherwise; the scan
      moves to the next run. Together the tokens and what is left to append
      stay the same. */
  method SplitTurn(str: string, delims: string, tokens: seq<string>, skip: int, lastPos: nat, pos: nat)
      returns (tokens': seq<string>, skip': int, lastPos': nat, pos': nat)
    requires lastPos < |str| && str[lastPos] !in delims
    requires pos == FirstOf(str, delims, lastPos)
    ensures lastPos < lastPos' <= pos' <= |str|
    ensures pos' == FirstOf(str, delims, lastPos')
    ensures lastPos' < |str| ==> str[lastPos'] !in delims
    ensures tokens' + Left(str, delims, lastPos', skip') == tokens + Left(str, delims, lastPos, skip)
  {
    SplitStep(str, delims, lastPos, skip);
    tokens', skip' := tokens, skip;
    if skip' == 0 {
      tokens' := tokens' + [str[lastPos..pos]];
    } else {
      skip' := skip' - 1;
    }
    lastPos' := FirstNotOf(str, delims, pos);
    pos' := FirstOf(str, delims, lastPos');
  }

  /** `split(str, tokens, delimiters, fromPos)`: the maximal runs of `str`,
      except the first `fromPos` of them, are appended to `tokens`. */
  method Split(str: string, tokens0: seq<string>, delims: string, fromPos: int) returns (tokens: seq<string>)
    ensures tokens == tokens0 + Dropped(Runs(str, delims), fromPos)
  {
    tokens := tokens0;
    var skip := fromPos;
    var lastPos := FirstNotOf(str, delims, 0);
    var pos := FirstOf(str, delims, lastPos);
    SkipDelims(str, delims, 0, lastPos);
    assert str[0..] == str;
    while pos != |str| || lastPos != |str|
      invariant lastPos <= pos <= |str|
      invariant pos == FirstOf(str, delims, lastPos)
      invariant lastPos < |str| ==> str[lastPos] !in delims
      invariant tokens + Left(str, delims, lastPos, skip) == tokens0 + Left(str, delims, 0, fromPos)
      decreases |str| - lastPos
    {
      tokens, skip, lastPos, pos := SplitTurn(str, delims, tokens, skip, lastPos, pos);
    }
    assert str[lastPos..] == [];
  }

  /** `s` with its delimiter characters removed. */
  function Strip(s: string, delims: string): (r: string)
    ensures |r| <= |s|
    decreases |s|
  {
    if |s| == 0 then ""
    else (if s[0] in delims then "" else [s[0]]) + Strip(s[1..], delims)
  }

  function Concat(ts: seq<string>): string
    decreases |ts|
  {
    if |ts| == 0 then "" else ts[0] + Concat(ts[1..])
  }

  lemma {:induction false} StripAppend(a: string, b: string, delims: string)
    ensures Strip(a + b, delims) == Strip(a, delims) + Strip(b, delims)
    decreases |a|
  {
    if |a| > 0 {
      assert (a + b)[0] == a[0];
      assert (a + b)[1..] == a[1..] + b;
      StripAppend(a[1..], b, delims);
    } else {
      assert a + b == b;
    }
  }

  lemma {:induction false} StripClean(a: string, delims: string)
    requires forall k :: 0 <= k < |a| ==> a[k] !in delims
    ensures Strip(a, delims) == a
    decreases |a|
  {
    if |a| > 0 {
      StripClean(a[1..], delims);
      assert a == [a[0]] + a[1..];
    }
  }

  /** Read back to back, the runs are the input without its delimiters. */
  lemma {:induction false} RunsCoverInput(s: string, delims: string)
    ensures Concat(Runs(s, delims)) == Strip(s, delims)
    decreases |s|
  {
    if |s| > 0 {
      if s[0] in delims {
        RunsCoverInput(s[1..], delims);
      } else {
        var j := FirstOf(s, delims, 0);
        RunsCoverInput(s[j..], delims);
        assert s == s[..j] + s[j..];
        StripAppend(s[..j], s[j..], delims);
        StripClean(s[..j], delims);
        assert ([s[..j]] + Runs(s[j..], delims))[1..] == Runs(s[j..], delims);
      }
    }
  }

  /** A string has no runs exactly when it is empty or all delimiters, so
      `split` then adds nothing. */
  lemma {:induction false} RunsEmpty(s: string, delims: string)
    ensures Runs(s, delims) == [] <==> AllDelims(s, delims)
  {
    if AllDelims(s, delims) {
      RunsSkipPrefix(s, "", delims);
      assert s + "" == s;
    } else {
      var k :| 0 <= k < |s| && s[k] !in delims;
      RunsCoverInput(s, delims);
      assert s == s[..k] + s[k..];
      StripAppend(s[..k], s[k..], delims);
      assert s[k..][0] == s[k];
      assert |Strip(s[k..], delims)| > 0;
    }
  }

  /** The tokens separated by `delim`, with none before the first or after
      the last. */
  function JoinWith(ts: seq<string>, delim: string): string
    decreases |ts|
  {
    if |ts| == 0 then "" else if |ts| == 1 then ts[0] else ts[0] + delim + JoinWith(ts[1..], delim)
  }

  lemma {:induction false} JoinWithAppend(ts: seq<string>, t: string, delim: string)
    requires |ts| > 0
    ensures JoinWith(ts + [t], delim) == JoinWith(ts, delim) + delim + t
    decreases |ts|
  {
    if |ts| == 1 {
      assert (ts + [t])[1..] == [t];
    } else {
      assert (ts + [t])[1..] == ts[1..] + [t];
      JoinWithAppend(ts[1..], t, delim);
    }
  }

  /** `ts` from its first non-empty string on. */
  function DropLeadingEmpty(ts: seq<string>): (r: seq<string>)
    ensures |r| <= |ts|
    ensures |r| > 0 ==> |r[0]| > 0
    decreases |ts|
  {
    if |ts| == 0 then [] else if ts[0] == "" then DropLeadingEmpty(ts[1..]) else ts
  }

  lemma {:induction false} DropLeadingAppend(ts: seq<string>, t: string)
    ensures DropLeadingEmpty(ts + [t]) ==
      if DropLeadingEmpty(ts) == [] then (if t == "" then [] else [t]) else DropLeadingEmpty(ts) + [t]
    decreases |ts|
  {
    if |ts| > 0 {
      assert (ts + [t])[0] == ts[0];
      assert (ts + [t])[1..] == ts[1..] + [t];
      DropLeadingAppend(ts[1..], t);
    } else {
      assert ts + [t] == [t];
      assert [t][1..] == [];
    }
  }

  lemma JoinWithEmpty(ts: seq<string>, delim: string)
    requires |ts| > 0 && |ts[0]| > 0
    ensures |JoinWith(ts, delim)| > 0
  {
  }

  /** `join(tokens, result, delimiter)` on strings: the tokens are appended
      to `result`, each but the first written preceded by the delimiter
      once `result` is non-empty. The outcome is the join of `result`
      followed by the tokens, once the empty strings in front are dropped. */
  method JoinStrings(tokens: seq<string>, result0: string, delim: string) returns (result: string)
    ensures result == JoinWith(DropLeadingEmpty([result0] + tokens), delim)
    ensures |result| >= |result0| && result[..|result0|] == result0
  {
    result := result0;
    var i := 0;
    assert [result0] + tokens[..0] == [result0];
    while i < |tokens|
      invariant 0 <= i <= |tokens|
      invariant result == JoinWith(DropLeadingEmpty([result0] + tokens[..i]), delim)
      invariant |result| >= |result0| && result[..|result0|] == result0
    {
      var xs := [result0] + tokens[..i];
      assert [result0] + tokens[..i + 1] == xs + [tokens[i]];
      DropLeadingAppend(xs, tokens[i]);
      if DropLeadingEmpty(xs) != [] {
        JoinWithEmpty(DropLeadingEmpty(xs), delim);
        JoinWithAppend(DropLeadingEmpty(xs), tokens[i], delim);
      }
      if |result| > 0 {
        result := result + delim;
      }
      result := result + tokens[i];
      i := i + 1;
    }
    assert tokens[..i] == tokens;
  }

  /** With a fresh `result` and no empty token the string joiner is the
      plain join. */
  lemma JoinStringsPlain(tokens: seq<string>, delim: string)
    requires forall k :: 0 <= k < |tokens| ==> |tokens[k]| > 0
    ensures JoinWith(DropLeadingEmpty([""] + tokens), delim) == JoinWith(tokens, delim)
  {
    assert ([""] + tokens)[1..] == tokens;
  }

  /** Splitting a join of tokens on the delimiter's characters gives the
      tokens back. */
  lemma {:induction false} SplitJoin(ts: seq<string>, delim: string, delims: string)
    requires |delim| > 0 && AllDelims(delim, delims)
    requires forall k :: 0 <= k < |ts| ==> Token(ts[k], delims)
    ensures Runs(JoinWith(ts, delim), delims) == ts
    decreases |ts|
  {
    if |ts| == 1 {
      var t := ts[0];
      assert Token(t, delims);
      assert FirstOf(t, delims, 0) == |t|;
      assert t[..|t|] == t;
      assert t[|t|..] == [];
    } else if |ts| > 1 {
      var t := ts[0];
      var rest := JoinWith(ts[1..], delim);
      var s := t + (delim + rest);
      assert JoinWith(ts, delim) == s;
      assert Token(t, delims);
      assert s[|t|] == delim[0];
      var j := FirstOf(s, delims, 0);
      assert j == |t|;
      assert s[..j] == t;
      assert s[j..] == delim + rest;
      RunsSkipPrefix(delim, rest, delims);
      SplitJoin(ts[1..], delim, delims);
      assert ts == [t] + ts[1..];
    }
  }

  /** The character of the decimal digit `d`. */
  function DigitChar(d: int): (c: char)
    requires 0 <= d < 10
    ensures '0' <= c <= '9'
  {
    ('0' as int + d) as char
  }

  predicate IsDigits(s: string) {
    forall k :: 0 <= k < |s| ==> '0' <= s[k] <= '9'
  }

  /** The decimal numeral of `n`, as `operator<<` writes it. */
  function Digits(n: nat): (r: string)
    ensures |r| > 0 && IsDigits(r)
    ensures r[0] == '0' <==> n == 0
    decreases n
  {
    if n < 10 then [DigitChar(n)] else Digits(n / 10) + [DigitChar(n % 10)]
  }

  /** The value of a string of decimal digits. */
  function ValueOf(s: string): nat
    requires IsDigits(s)
    decreases |s|
  {
    if |s| == 0 then 0 else ValueOf(s[..|s| - 1]) * 10 + (s[|s| - 1] as int - '0' as int)
  }

  lemma {:induction false} DigitsRoundTrip(n: nat)
    ensures ValueOf(Digits(n)) == n
    decreases n
  {
    if n >= 10 {
      DigitsRoundTrip(n / 10);
      var r := Digits(n);
      assert r[..|r| - 1] == Digits(n / 10);
    }
  }

  /** An `int` as `operator<<` writes it: a minus sign for a negative value,
      then the digits of its magnitude. */
  function Decimal(i: int): (r: string)
    ensures |r| > 0
    ensures r[0] == '-' <==> i < 0
  {
    if i < 0 then "-" + Digits(-i) else Digits(i)
  }

  /** Reading a numeral written by `Decimal` back. */
  function ParseDecimal(s: string): int
    requires |s| > 0
    requires s[0] == '-' ==> IsDigits(s[1..])
    requires s[0] != '-' ==> IsDigits(s)
  {
    if s[0] == '-' then 0 - ValueOf(s[1..]) else ValueOf(s)
  }

  lemma DecimalRoundTrip(i: int)
    ensures ParseDecimal(Decimal(i)) == i
  {
    if i < 0 {
      DigitsRoundTrip(-i);
      assert Decimal(i)[1..] == Digits(-i);
    } else {
      DigitsRoundTrip(i);
    }
  }

  function Decimals(ts: seq<int>): (r: seq<string>)
    ensures |r| == |ts|
    ensures forall k :: 0 <= k < |ts| ==> r[k] == Decimal(ts[k])
  {
    seq(|ts|, k requires 0 <= k < |ts| => Decimal(ts[k]))
  }

  /** The joined numerals of one more token. */
  lemma JoinIntsStep(tokens: seq<int>, i: nat, delim: string)
    requires i < |tokens|
    ensures JoinWith(Decimals(tokens[..i + 1]), delim) ==
      if i == 0 then Decimal(tokens[0])
      else JoinWith(Decimals(tokens[..i]), delim) + delim + Decimal(tokens[i])
  {
    assert Decimals(tokens[..i + 1]) == Decimals(tokens[..i]) + [Decimal(tokens[i])];
    if i > 0 {
      JoinWithAppend(Decimals(tokens[..i]), Decimal(tokens[i]), delim);
    } else {
      assert Decimals(tokens[..1]) == [Decimal(tokens[0])];
    }
  }

  /** `join(tokens, result, delimiter)` on integers: `result` is replaced by
      the numerals of the tokens separated by the delimiter; the empty list
      gives the empty string. */
  method JoinInts(tokens: seq<int>, delim: string) returns (result: string)
    ensures result == JoinWith(Decimals(tokens), delim)
    ensures |tokens| == 0 <==> result == ""
  {
    var oss := "";
    var firstToken := true;
    var i := 0;
    while i < |tokens|
      invariant 0 <= i <= |tokens|
      invariant firstToken <==> i == 0
      invariant oss == JoinWith(Decimals(tokens[..i]), delim)
    {
      JoinIntsStep(tokens, i, delim);
      if firstToken {
        oss := oss + Decimal(tokens[i]);
        firstToken := false;
      } else {
        oss := oss + delim + Decimal(tokens[i]);
      }
      i := i + 1;
    }
    assert tokens[..i] == tokens;
    result := oss;
  }

  /** The numerals joined by the integer joiner split back, on any
      delimiter set holding the delimiter's characters but no digit and no
      minus sign, into numerals that read back as the original integers. */
  lemma JoinIntsSplit(ts: seq<int>, delim: string, delims: string)
    requires |delim| > 0 && AllDelims(delim, delims)
    requires forall c :: c in delims ==> c != '-' && !('0' <= c <= '9')
    ensures |Runs(JoinWith(Decimals(ts), delim), delims)| == |ts|
    ensures forall k :: 0 <= k < |ts| ==>
      var r := Runs(JoinWith(Decimals(ts), delim), delims)[k];
      r == Decimal(ts[k]) && ParseDecimal(r) == ts[k]
  {
    var ds := Decimals(ts);
    forall k | 0 <= k < |ds|
      ensures Token(ds[k], delims)
    {
      var d := ds[k];
      if ts[k] < 0 {
        assert d == "-" + Digits(-ts[k]);
      }
    }
    SplitJoin(ds, delim, delims);
    forall k | 0 <= k < |ts|
      ensures ParseDecimal(ds[k]) == ts[k]
    {
      DecimalRoundTrip(ts[k]);
    }
  }
}
