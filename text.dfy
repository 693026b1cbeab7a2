/** The pieces of Python's string handling the OFF reader and writer rely
    on: `str.strip()`, `str.split()` with no separator, `" ".join`,
    `int(token)` and `str(n)` for integers. */
module Text {

  datatype Option<T> = None | Some(value: T)

  /** `c.isspace()`: the characters `split()` and `strip()` treat as
      whitespace. */
  predicate IsSpace(c: char)
  {
    c == ' ' || '\t' <= c <= '\r' || '\U{1c}' <= c <= '\U{1f}' || c == '\U{85}' || c == '\U{a0}' ||
    c == '\U{1680}' || '\U{2000}' <= c <= '\U{200a}' || c == '\U{2028}' || c == '\U{2029}' ||
    c == '\U{202f}' || c == '\U{205f}' || c == '\U{3000}'
  }

  predicate NoSpace(s: string)
  {
    forall i :: 0 <= i < |s| ==> !IsSpace(s[i])
  }

  predicate AllSpace(s: string)
  {
    forall i :: 0 <= i < |s| ==> IsSpace(s[i])
  }

  /** A string that neither starts nor ends with whitespace. */
  predicate Trimmed(s: string)
  {
    s == [] || (!IsSpace(s[0]) && !IsSpace(s[|s| - 1]))
  }

  /** How many whitespace characters `s` starts with. */
  function Leading(s: string): (n: nat)
    ensures n <= |s| && (n < |s| ==> !IsSpace(s[n]))
  {
    if s == [] || !IsSpace(s[0]) then 0 else 1 + Leading(s[1..])
  }

  /** How many whitespace characters `s` ends with. */
  function Trailing(s: string): (n: nat)
    ensures n <= |s| && (n < |s| ==> !IsSpace(s[|s| - n - 1]))
  {
    if s == [] || !IsSpace(s[|s| - 1]) then 0 else 1 + Trailing(s[..|s| - 1])
  }

  /** `s.lstrip()`. */
  function TrimStart(s: string): string
  {
    s[Leading(s)..]
  }

  /** `s.rstrip()`. */
  function TrimEnd(s: string): string
  {
    s[..|s| - Trailing(s)]
  }

  /** `s.strip()`: `s` with its leading and trailing whitespace removed. */
  function Strip(s: string): (r: string)
    ensures Trimmed(r)
  {
    var t := TrimStart(s);
    var r := TrimEnd(t);
    assert r != [] ==> r[0] == t[0];
    r
  }

  /** `lstrip` cuts only whitespace. */
  lemma {:induction false} LeadingSpace(s: string)
    ensures AllSpace(s[..Leading(s)])
  {
    if s != [] && IsSpace(s[0]) {
      LeadingSpace(s[1..]);
      assert s[..Leading(s)] == [s[0]] + s[1..][..Leading(s[1..])];
    }
  }

  /** `rstrip` cuts only whitespace. */
  lemma {:induction false} TrailingSpace(s: string)
    ensures forall i :: |s| - Trailing(s) <= i < |s| ==> IsSpace(s[i])
  {
    if s != [] && IsSpace(s[|s| - 1]) {
      var init := s[..|s| - 1];
      TrailingSpace(init);
      forall i | |s| - Trailing(s) <= i < |s|
        ensures IsSpace(s[i])
      {
        if i < |s| - 1 {
          assert s[i] == init[i];
        }
      }
    }
  }

  /** `strip` cuts only whitespace, and only at the two ends. */
  lemma StripCutsSpace(s: string)
    ensures exists pre, post :: s == pre + Strip(s) + post && AllSpace(pre) && AllSpace(post)
  {
    var t := TrimStart(s);
    var r := TrimEnd(t);
    LeadingSpace(s);
    TrailingSpace(t);
    var pre, post := s[..Leading(s)], t[|r|..];
    assert AllSpace(post) by {
      forall j | 0 <= j < |post|
        ensures IsSpace(post[j])
      {
        assert post[j] == t[|r| + j];
      }
    }
    assert s == pre + r + post;
  }

  /** A string already without whitespace at its ends is its own `strip`. */
  lemma StripTrimmed(s: string)
    requires Trimmed(s)
    ensures Strip(s) == s
  {
    assert Leading(s) == 0;
  }

  /** A trimmed string followed by one blank strips back to itself, as in
      a header line written with a blank before its newline. */
  lemma StripTrailingSpace(s: string)
    requires s != [] && Trimmed(s)
    ensures Strip(s + " ") == s
  {
    var t := s + " ";
    assert t[0] == s[0];
    assert Leading(t) == 0;
    assert t[..|t| - 1] == s;
    assert Trailing(t) == 1;
  }

  /** `s.startswith(p)`. */
  predicate StartsWith(s: string, p: string)
  {
    |p| <= |s| && s[..|p|] == p
  }

  /** The length of the longest prefix of `s` without whitespace. */
  function WordLength(s: string): (n: nat)
    ensures n <= |s| && (n < |s| ==> IsSpace(s[n]))
    ensures forall i :: 0 <= i < n ==> !IsSpace(s[i])
  {
    if s == [] || IsSpace(s[0]) then 0 else 1 + WordLength(s[1..])
  }

  /** `s.split()`: the maximal runs of non-whitespace characters, in order. */
  function Split(s: string): (r: seq<string>)
    ensures forall t :: t in r ==> t != [] && NoSpace(t)
    decreases |s|
  {
    if s == [] then []
    else if IsSpace(s[0]) then Split(s[1..])
    else
      var n := WordLength(s);
      [s[..n]] + Split(s[n..])
  }

  /** `sep.join(ts)`. */
  function Join(sep: string, ts: seq<string>): string
  {
    if ts == [] then [] else if |ts| == 1 then ts[0] else ts[0] + sep + Join(sep, ts[1..])
  }

  /** Tokens that `split` gives back as they are: non-empty and free of
      whitespace. */
  predicate Clean(ts: seq<string>)
  {
    forall i :: 0 <= i < |ts| ==> ts[i] != [] && NoSpace(ts[i])
  }

  /** A word followed by whitespace or by nothing is the first word. */
  lemma {:induction false} WordPrefix(w: string, rest: string)
    requires NoSpace(w) && (rest == [] || IsSpace(rest[0]))
    ensures WordLength(w + rest) == |w|
  {
    if w != [] {
      assert (w + rest)[1..] == w[1..] + rest;
      WordPrefix(w[1..], rest);
    }
  }

  /** A word followed by whitespace or by nothing splits off as the first
      token. */
  lemma SplitWord(w: string, rest: string)
    requires w != [] && NoSpace(w) && (rest == [] || IsSpace(rest[0]))
    ensures Split(w + rest) == [w] + Split(rest)
  {
    WordPrefix(w, rest);
    assert (w + rest)[..|w|] == w;
    assert (w + rest)[|w|..] == rest;
  }

  /** Splitting a space-joined list of clean tokens gives the tokens back. */
  lemma {:induction false} SplitJoin(ts: seq<string>)
    requires Clean(ts)
    ensures Split(Join(" ", ts)) == ts
  {
    if |ts| == 1 {
      SplitWord(ts[0], []);
      assert ts[0] + [] == ts[0];
    } else if |ts| > 1 {
      var rest := Join(" ", ts[1..]);
      assert Join(" ", ts) == ts[0] + (" " + rest);
      SplitWord(ts[0], " " + rest);
      SplitAfterSpace(rest);
      SplitJoin(ts[1..]);
    }
  }

  /** A space-joined list of clean tokens has no whitespace at its ends. */
  lemma {:induction false} JoinTrimmed(ts: seq<string>)
    requires Clean(ts)
    ensures Trimmed(Join(" ", ts))
    ensures ts != [] ==> Join(" ", ts) != [] && Join(" ", ts)[0] == ts[0][0]
  {
    if |ts| > 1 {
      JoinTrimmed(ts[1..]);
    }
  }

  /** Leading whitespace does not change the split. */
  lemma SplitAfterSpace(s: string)
    ensures Split(" " + s) == Split(s)
  {
    assert (" " + s)[1..] == s;
  }

  predicate IsDigit(c: char)
  {
    '0' <= c <= '9'
  }

  /** The digits part of a literal `int()` accepts: decimal digits with
      single underscores allowed between two digits. */
  predicate Grouped(ds: string)
    decreases |ds|
  {
    |ds| > 0 && IsDigit(ds[|ds| - 1]) &&
    var init := ds[..|ds| - 1];
    init == [] || Grouped(init) || (init[|init| - 1] == '_' && Grouped(init[..|init| - 1]))
  }

  /** The value of a run of digits, underscores skipped. */
  function DigitsValue(ds: string): nat
  {
    if ds == [] then 0
    else
      var c := ds[|ds| - 1];
      if IsDigit(c) then 10 * DigitsValue(ds[..|ds| - 1]) + (c as int - '0' as int)
      else DigitsValue(ds[..|ds| - 1])
  }

  /** `int(t)` for a token without surrounding whitespace: an optional
      sign and a grouped digit run; anything else raises `ValueError`,
      shown as `None`. */
  function ParseInt(t: string): Option<int>
  {
    if |t| > 0 && (t[0] == '+' || t[0] == '-') then
      if Grouped(t[1..]) then
        var n: int := DigitsValue(t[1..]);
        Some(if t[0] == '-' then -n else n)
      else None
    else if Grouped(t) then Some(DigitsValue(t))
    else None
  }

  function DigitChar(d: nat): (c: char)
    requires d < 10
    ensures IsDigit(c) && c as int - '0' as int == d
  {
    ['0', '1', '2', '3', '4', '5', '6', '7', '8', '9'][d]
  }

  /** `str(n)` for `n >= 0`: decimal digits without leading zeros. */
  function ShowNat(n: nat): (s: string)
    ensures |s| > 0 && forall i :: 0 <= i < |s| ==> IsDigit(s[i])
  {
    if n < 10 then [DigitChar(n)] else ShowNat(n / 10) + [DigitChar(n % 10)]
  }

  /** `str(n)`. */
  function ShowInt(n: int): (s: string)
  {
    if n < 0 then "-" + ShowNat(-n) else ShowNat(n)
  }

  /** The digits of `n` read back as `n`. */
  lemma {:induction false} ShowNatValue(n: nat)
    ensures Grouped(ShowNat(n)) && DigitsValue(ShowNat(n)) == n
  {
    var s := ShowNat(n);
    if n >= 10 {
      ShowNatValue(n / 10);
      assert s[..|s| - 1] == ShowNat(n / 10);
    }
  }

  /** `int(str(n)) == n` for every integer. */
  lemma ParseShowInt(n: int)
    ensures ParseInt(ShowInt(n)) == Some(n)
  {
    if n < 0 {
      ParseShowNegative(n);
    } else {
      ParseShowNatural(n);
    }
  }

  lemma ParseShowNegative(n: int)
    requires n < 0
    ensures ParseInt(ShowInt(n)) == Some(n)
  {
    ShowNatValue(-n);
    ParseNegative(ShowNat(-n));
  }

  /** A minus sign before a grouped digit run reads as the negated value. */
  lemma ParseNegative(ds: string)
    requires Grouped(ds)
    ensures var v: int := DigitsValue(ds); ParseInt("-" + ds) == Some(-v)
  {
    assert ("-" + ds)[1..] == ds;
  }

  lemma ParseShowNatural(n: nat)
    ensures ParseInt(ShowInt(n)) == Some(n)
  {
    var t := ShowNat(n);
    ShowNatValue(n);
    assert IsDigit(t[0]);
  }

  /** `str(n)` is a single clean token. */
  lemma ShowIntClean(n: int)
    ensures ShowInt(n) != [] && NoSpace(ShowInt(n))
  {
    var s := ShowNat(if n < 0 then -n else n);
    assert forall i :: 0 <= i < |s| ==> !IsSpace(s[i]);
  }

  /** `list(map(int, ts))`: `None` as soon as one token is not an integer. */
  function ParseInts(ts: seq<string>): (r: Option<seq<int>>)
    ensures r.Some? <==> forall i :: 0 <= i < |ts| ==> ParseInt(ts[i]).Some?
    ensures r.Some? ==> |r.value| == |ts| && forall i :: 0 <= i < |ts| ==> r.value[i] == ParseInt(ts[i]).value
  {
    if ts == [] then Some([])
    else
      match ParseInt(ts[0])
      case None => None
      case Some(n) =>
        match ParseInts(ts[1..])
        case None => None
        case Some(ns) => Some([n] + ns)
  }

  /** `map(str, ns)`. */
  function ShowInts(ns: seq<int>): (ts: seq<string>)
    ensures |ts| == |ns| && forall i :: 0 <= i < |ns| ==> ts[i] == ShowInt(ns[i])
  {
    seq(|ns|, i requires 0 <= i < |ns| => ShowInt(ns[i]))
  }

  /** `list(map(int, map(str, ns))) == ns`, and the shown integers are
      clean tokens. */
  lemma ParseShowInts(ns: seq<int>)
    ensures Clean(ShowInts(ns))
    ensures ParseInts(ShowInts(ns)) == Some(ns)
  {
    forall i | 0 <= i < |ns| ensures ParseInt(ShowInts(ns)[i]) == Some(ns[i]) && ShowInts(ns)[i] != [] &&
      NoSpace(ShowInts(ns)[i])
    {
      ParseShowInt(ns[i]);
      ShowIntClean(ns[i]);
    }
    var r := ParseInts(ShowInts(ns));
    assert r.Some? && r.value == ns;
  }
}
