/** The download hook of the front end: reading the percentage and the
    speed out of a progress line, the tree of download items created for
    a video, and the hook's bookkeeping of downloads and their state. */
module DownloadVideo {
  import opened Common
  import opened ProgressTree
  import Engine
  import opened FetchVideoInfo

  // ---------------------------------------------------------------------
  // Runs of characters

  /** The end of the run of digits starting at `j`. */
  function DigitsEnd(s: string, j: int): (e: int)
    requires 0 <= j <= |s|
    ensures j <= e <= |s| && (e == |s| || !IsDigit(s[e]))
    ensures forall k :: j <= k < e ==> IsDigit(s[k])
    decreases |s| - j
  {
    if j < |s| && IsDigit(s[j]) then DigitsEnd(s, j + 1) else j
  }

  /** The run end is where the first non-digit is. */
  lemma {:induction false} DigitsEndAt(s: string, j: int, e: int)
    requires 0 <= j <= e <= |s| && (e == |s| || !IsDigit(s[e]))
    requires forall k :: j <= k < e ==> IsDigit(s[k])
    ensures DigitsEnd(s, j) == e
    decreases e - j
  {
    if j < e {
      DigitsEndAt(s, j + 1, e);
    }
  }

  /** The end of the run of word characters starting at `j`. */
  function WordEnd(s: string, j: int): (e: int)
    requires 0 <= j <= |s|
    ensures j <= e <= |s| && (e == |s| || !IsWordChar(s[e]))
    ensures forall k :: j <= k < e ==> IsWordChar(s[k])
    decreases |s| - j
  {
    if j < |s| && IsWordChar(s[j]) then WordEnd(s, j + 1) else j
  }

  lemma {:induction false} WordEndAt(s: string, j: int, e: int)
    requires 0 <= j <= e <= |s| && (e == |s| || !IsWordChar(s[e]))
    requires forall k :: j <= k < e ==> IsWordChar(s[k])
    ensures WordEnd(s, j) == e
    decreases e - j
  {
    if j < e {
      WordEndAt(s, j + 1, e);
    }
  }

  // ---------------------------------------------------------------------
  // getPercentage: /\d+(?:\.\d)*\%/

  /** `(?:\.\d)*`: pairs of a point and one digit. */
  predicate Groups(g: string)
  {
    |g| % 2 == 0 && forall k :: 0 <= k < |g| ==> if k % 2 == 0 then g[k] == '.' else IsDigit(g[k])
  }

  /** `s[i..e]` is a match whose digits end at `i + d`: digits, then
      point-digit pairs, then a percent sign. */
  ghost predicate PercentageSplit(s: string, i: int, d: int, e: int)
  {
    && 0 <= i && 1 <= d && i + d < e <= |s|
    && AllDigits(s[i..i + d]) && Groups(s[i + d..e - 1]) && s[e - 1] == '%'
  }

  /** `s[i..e]` is a match of the expression. */
  ghost predicate PercentageAt(s: string, i: int, e: int)
  {
    0 <= i < |s| && exists d :: PercentageSplit(s, i, d, e)
  }

  /** The end of the point-digit pairs starting at `j`. */
  function GroupsEnd(s: string, j: int): (e: int)
    requires 0 <= j <= |s|
    ensures j <= e <= |s| && (e - j) % 2 == 0
    ensures !(e + 1 < |s| && s[e] == '.' && IsDigit(s[e + 1]))
    ensures forall k :: j <= k < e ==> if (k - j) % 2 == 0 then s[k] == '.' else IsDigit(s[k])
    decreases |s| - j
  {
    if j + 1 < |s| && s[j] == '.' && IsDigit(s[j + 1]) then GroupsEnd(s, j + 2) else j
  }

  lemma {:induction false} GroupsEndAt(s: string, j: int, e: int)
    requires 0 <= j <= e < |s| && s[e] != '.' && (e - j) % 2 == 0
    requires forall k :: j <= k < e ==> if (k - j) % 2 == 0 then s[k] == '.' else IsDigit(s[k])
    ensures GroupsEnd(s, j) == e
    decreases e - j
  {
    if j < e {
      assert s[j] == '.' && IsDigit(s[j + 1]);
      forall k | j + 2 <= k < e
        ensures if (k - (j + 2)) % 2 == 0 then s[k] == '.' else IsDigit(s[k])
      {
        assert (k - (j + 2)) % 2 == (k - j) % 2;
      }
      GroupsEndAt(s, j + 2, e);
    }
  }

  /** The match starting at `i`, as its end: the digits and the pairs are
      taken greedily, and giving any back cannot put a percent sign after
      them, so this is the only candidate. */
  function PercentageEnd(s: string, i: int): (r: Option<int>)
    requires 0 <= i <= |s|
  {
    if i < |s| && IsDigit(s[i]) then
      var e := GroupsEnd(s, DigitsEnd(s, i));
      if e < |s| && s[e] == '%' then Some(e + 1) else None
    else None
  }

  /** What the scan finds is a match of the expression. */
  lemma PercentageEndSound(s: string, i: int, e: int)
    requires 0 <= i <= |s| && PercentageEnd(s, i) == Some(e)
    ensures PercentageAt(s, i, e)
  {
    var j := DigitsEnd(s, i);
    assert AllDigits(s[i..j]) by {
      forall k | 0 <= k < j - i ensures IsDigit(s[i..j][k]) { assert s[i..j][k] == s[i + k]; }
    }
    var g := s[j..e - 1];
    forall k | 0 <= k < |g| ensures if k % 2 == 0 then g[k] == '.' else IsDigit(g[k]) {
      assert g[k] == s[j + k];
      assert (j + k - j) % 2 == k % 2;
    }
    assert PercentageSplit(s, i, j - i, e);
  }

  /** Every match of the expression at `i` is what the scan finds. */
  lemma PercentageEndComplete(s: string, i: int, d: int, e: int)
    requires PercentageSplit(s, i, d, e)
    ensures PercentageEnd(s, i) == Some(e)
  {
    forall k | i <= k < i + d ensures IsDigit(s[k]) { assert s[i..i + d][k - i] == s[k]; }
    var g := s[i + d..e - 1];
    if |g| > 0 { assert g[0] == s[i + d]; }
    forall k | i + d <= k < e - 1
      ensures if (k - (i + d)) % 2 == 0 then s[k] == '.' else IsDigit(s[k])
    {
      assert g[k - (i + d)] == s[k];
    }
    DigitsEndAt(s, i, i + d);
    GroupsEndAt(s, i + d, e - 1);
  }

  /** The leftmost match at or after `i`. */
  function PercentageFrom(s: string, i: int): (r: Option<(int, int)>)
    requires 0 <= i <= |s|
    ensures r.Some? ==> i <= r.value.0 && PercentageAt(s, r.value.0, r.value.1)
    ensures r.Some? ==> forall i', e' :: i <= i' < r.value.0 ==> !PercentageAt(s, i', e')
    ensures r.None? ==> forall i', e' :: i <= i' ==> !PercentageAt(s, i', e')
    decreases |s| - i
  {
    var here := PercentageEnd(s, i);
    if here.Some? then PercentageEndSound(s, i, here.value); Some((i, here.value))
    else
      assert forall e' :: !PercentageAt(s, i, e') by {
        forall e' | PercentageAt(s, i, e') ensures false {
          var d :| PercentageSplit(s, i, d, e');
          PercentageEndComplete(s, i, d, e');
        }
      }
      if i == |s| then None else PercentageFrom(s, i + 1)
  }

  /** `getPercentage`: the leftmost match, or nothing. */
  function GetPercentage(s: string): (r: Option<string>)
    ensures r.None? <==> forall i, e :: !PercentageAt(s, i, e)
    ensures r.Some? ==> exists i, e :: (PercentageAt(s, i, e) && s[i..e] == r.value
      && forall i', e' :: 0 <= i' < i ==> !PercentageAt(s, i', e'))
  {
    match PercentageFrom(s, 0)
    case None => None
    case Some((i, e)) => Some(s[i..e])
  }

  /** `parseFloat` of a match reads its digits and at most one decimal:
      point-digit pairs after the first are ignored. */
  lemma PercentageValue(s: string, i: int, d: int, e: int)
    requires PercentageSplit(s, i, d, e)
    ensures IsDigit(s[i..e][0])
    ensures ParseDecimalPrefix(s[i..e]) == DecimalValue(s[i..i + d], if i + d < e - 1 then [s[i + d + 1]] else "")
  {
    var t := s[i..e];
    var g := s[i + d..e - 1];
    forall k | 0 <= k < d ensures IsDigit(t[k]) { assert t[k] == s[i..i + d][k]; }
    assert t[|t| - 1] == '%';
    if |g| > 0 {
      assert t[d] == g[0] == '.' && t[d + 1] == g[1];
      if |g| > 2 { assert t[d + 2] == g[2]; }
      DigitsEndAt(t, d + 1, d + 2);
      assert t[d + 1..d + 2] == [s[i + d + 1]];
    }
    DigitsEndAt(t, 0, d);
    assert t[..d] == s[i..i + d];
  }

  /** A line with several decimals yields only the digits before the
      percent sign. */
  lemma PercentageExample()
    ensures GetPercentage("42.55%") == Some("55%")
  {
    var s := "42.55%";
    assert DigitsEnd(s, 3) == 5 && GroupsEnd(s, 5) == 5;
    assert PercentageEnd(s, 3) == Some(6);
    assert DigitsEnd(s, 0) == 2 && GroupsEnd(s, 2) == 4 && PercentageEnd(s, 0) == None;
    assert DigitsEnd(s, 1) == 2 && PercentageEnd(s, 1) == None;
    assert PercentageEnd(s, 2) == None;
    assert PercentageFrom(s, 3) == Some((3, 6));
    assert PercentageFrom(s, 2) == Some((3, 6));
    assert PercentageFrom(s, 1) == Some((3, 6));
    assert PercentageFrom(s, 0) == Some((3, 6));
    assert s[3..6] == "55%";
  }

  // ---------------------------------------------------------------------
  // getSpeed: /(\d+\.\d+)(\w+\/s)/

  /** `s[i..e]` is a match with the rate `s[i..m]`, whose point is at
      `j`, and the unit `s[m..e]`. */
  ghost predicate SpeedSplit(s: string, i: int, j: int, m: int, e: int)
  {
    && 0 <= i < j && j + 1 < m && m + 2 < e <= |s|
    && AllDigits(s[i..j]) && s[j] == '.' && AllDigits(s[j + 1..m])
    && AllWordChars(s[m..e - 2]) && s[e - 2] == '/' && s[e - 1] == 's'
  }

  /** `s[i..e]` is a match of the expression with the groups split at `m`. */
  ghost predicate SpeedAt(s: string, i: int, m: int, e: int)
  {
    0 <= i < |s| && exists j :: SpeedSplit(s, i, j, m, e)
  }

  /** Digits are word characters, so the word run covers the digit run. */
  lemma {:induction false} WordEndCoversDigits(s: string, j: int)
    requires 0 <= j <= |s|
    ensures DigitsEnd(s, j) <= WordEnd(s, j)
    decreases |s| - j
  {
    if j < |s| && IsDigit(s[j]) {
      WordEndCoversDigits(s, j + 1);
    }
  }

  lemma {:induction false} DigitsEndAtLeast(s: string, j: int, m: int)
    requires 0 <= j <= m <= |s|
    requires forall k :: j <= k < m ==> IsDigit(s[k])
    ensures m <= DigitsEnd(s, j)
    decreases m - j
  {
    if j < m {
      DigitsEndAtLeast(s, j + 1, m);
    }
  }

  /** The match starting at `i`, as the split and the end. The digits
      before the point are all taken; the unit is the longest run of word
      characters after the point, followed by `/s`; the rate keeps as many
      digits as it can while leaving the unit one character. */
  function SpeedEnd(s: string, i: int): (r: Option<(int, int)>)
    requires 0 <= i <= |s|
  {
    if i < |s| && IsDigit(s[i]) then
      var j := DigitsEnd(s, i);
      if j < |s| && s[j] == '.' then
        var d := DigitsEnd(s, j + 1);
        var w := WordEnd(s, j + 1);
        if d > j + 1 && w > j + 2 && w + 1 < |s| && s[w] == '/' && s[w + 1] == 's' then
          Some((if d < w then d else w - 1, w + 2))
        else None
      else None
    else None
  }

  /** What the scan finds is a match of the expression. */
  lemma SpeedEndSound(s: string, i: int, m: int, e: int)
    requires 0 <= i <= |s| && SpeedEnd(s, i) == Some((m, e))
    ensures SpeedAt(s, i, m, e)
  {
    var j := DigitsEnd(s, i);
    WordEndCoversDigits(s, j + 1);
    assert AllDigits(s[i..j]) by {
      forall k | 0 <= k < j - i ensures IsDigit(s[i..j][k]) { assert s[i..j][k] == s[i + k]; }
    }
    var frac := s[j + 1..m];
    forall k | 0 <= k < |frac| ensures IsDigit(frac[k]) { assert frac[k] == s[j + 1 + k]; }
    var unit := s[m..e - 2];
    forall k | 0 <= k < |unit| ensures IsWordChar(unit[k]) { assert unit[k] == s[m + k]; }
    assert SpeedSplit(s, i, j, m, e);
  }

  /** Every match at `i` ends where the scan's does and splits no later:
      the scan's split is the one the backtracking matcher reports. */
  lemma SpeedEndGreatest(s: string, i: int, j: int, m: int, e: int)
    requires SpeedSplit(s, i, j, m, e)
    ensures SpeedEnd(s, i).Some? && m <= SpeedEnd(s, i).value.0 && SpeedEnd(s, i).value.1 == e
  {
    SpeedPoint(s, i, j, m, e);
    forall k | j + 1 <= k < m ensures IsDigit(s[k]) { assert s[j + 1..m][k - j - 1] == s[k]; }
    DigitsEndAtLeast(s, j + 1, m);
    forall k | j + 1 <= k < e - 2 ensures IsWordChar(s[k]) {
      if k >= m { assert s[m..e - 2][k - m] == s[k]; }
    }
    assert !IsWordChar(s[e - 2]);
    WordEndAt(s, j + 1, e - 2);
  }

  /** The leftmost start at or after `i` with a match, with the scan's
      split and end there. */
  function SpeedFrom(s: string, i: int): (r: Option<(int, int, int)>)
    requires 0 <= i <= |s|
    ensures r.Some? ==> i <= r.value.0 && SpeedAt(s, r.value.0, r.value.1, r.value.2)
    ensures r.Some? ==> forall m', e' :: SpeedAt(s, r.value.0, m', e') ==> m' <= r.value.1 && e' == r.value.2
    ensures r.Some? ==> forall i', m', e' :: i <= i' < r.value.0 ==> !SpeedAt(s, i', m', e')
    ensures r.None? ==> forall i', m', e' :: i <= i' ==> !SpeedAt(s, i', m', e')
    decreases |s| - i
  {
    var here := SpeedEnd(s, i);
    if here.Some? then
      SpeedEndSound(s, i, here.value.0, here.value.1);
      assert forall m', e' :: SpeedAt(s, i, m', e') ==> m' <= here.value.0 && e' == here.value.1 by {
        forall m', e' | SpeedAt(s, i, m', e') ensures m' <= here.value.0 && e' == here.value.1 {
          var j :| SpeedSplit(s, i, j, m', e');
          SpeedEndGreatest(s, i, j, m', e');
        }
      }
      Some((i, here.value.0, here.value.1))
    else
      assert forall m', e' :: !SpeedAt(s, i, m', e') by {
        forall m', e' | SpeedAt(s, i, m', e') ensures false {
          var j :| SpeedSplit(s, i, j, m', e');
          SpeedEndGreatest(s, i, j, m', e');
        }
      }
      if i == |s| then None else SpeedFrom(s, i + 1)
  }

  /** `parseFloat` on a text that starts with a digit: the value of the
      longest prefix made of digits, optionally followed by a point and
      more digits. */
  function ParseDecimalPrefix(t: string): real
    requires |t| > 0 && IsDigit(t[0])
  {
    var j := DigitsEnd(t, 0);
    if j < |t| && t[j] == '.' then DecimalValue(t[..j], t[j + 1..DigitsEnd(t, j + 1)])
    else DecimalValue(t[..j], "")
  }

  /** The point of a match is the first non-digit after its start. */
  lemma SpeedPoint(s: string, i: int, j: int, m: int, e: int)
    requires SpeedSplit(s, i, j, m, e)
    ensures DigitsEnd(s, i) == j
  {
    forall k | i <= k < j ensures IsDigit(s[k]) { assert s[i..j][k - i] == s[k]; }
    DigitsEndAt(s, i, j);
  }

  /** The rate group is read whole: its value is that of the numeral. */
  lemma ParseRate(s: string, i: int, j: int, m: int, e: int)
    requires SpeedSplit(s, i, j, m, e)
    ensures IsDigit(s[i..m][0])
    ensures ParseDecimalPrefix(s[i..m]) == DecimalValue(s[i..j], s[j + 1..m])
  {
    var t := s[i..m];
    var p := j - i;
    forall k | 0 <= k < p ensures IsDigit(t[k]) { assert t[k] == s[i..j][k]; }
    forall k | p + 1 <= k < |t| ensures IsDigit(t[k]) { assert t[k] == s[j + 1..m][k - p - 1]; }
    DigitsEndAt(t, 0, p);
    DigitsEndAt(t, p + 1, |t|);
    assert t[..p] == s[i..j] && t[p + 1..|t|] == s[j + 1..m];
  }

  /** The `DownloadSpeed` object: the parsed rate and the unit text. */
  datatype Speed = Speed(rate: real, size: string)

  /** Without a unit letter the last digit becomes the unit: the rate
      gives back one digit so that `\w+` is not empty. */
  lemma SpeedExample()
    ensures GetSpeed("1.25/s") == Some(Speed(1.2, "5/s"))
  {
    var s := "1.25/s";
    assert DigitsEnd(s, 0) == 1 && DigitsEnd(s, 2) == 4 && WordEnd(s, 2) == 4;
    assert SpeedEnd(s, 0) == Some((3, 6)) && SpeedFrom(s, 0) == Some((0, 3, 6));
    assert s[0..3] == "1.2" && s[3..6] == "5/s";
    OneDecimal('1', '2');
  }

  /** `parseFloat` of a digit, a point and a digit. */
  lemma OneDecimal(a: char, b: char)
    requires IsDigit(a) && IsDigit(b)
    ensures ParseDecimalPrefix([a, '.', b]) == (DigitValue(a) as real) + (DigitValue(b) as real) / 10.0
  {
    var t := [a, '.', b];
    assert DigitsEnd(t, 0) == 1 && DigitsEnd(t, 2) == 3;
    assert t[..1] == [a] && t[2..3] == [b];
    assert [a][..0] == [] && [b][..0] == [];
    assert DigitsValue([a]) == DigitValue(a) && DigitsValue([b]) == DigitValue(b);
    assert Pow10(1) == 10;
  }

  /** The match `exec` reports: the leftmost start, and there the split
      the backtracking matcher tries first, the latest one. */
  ghost predicate ReportedSpeed(s: string, i: int, m: int, e: int)
  {
    && SpeedAt(s, i, m, e)
    && (forall m', e' :: SpeedAt(s, i, m', e') ==> m' <= m)
    && (forall i', m', e' :: 0 <= i' < i ==> !SpeedAt(s, i', m', e'))
  }

  /** What the search from the start finds is the reported match. */
  lemma ReportedSpeedFound(s: string, i: int, m: int, e: int)
    requires SpeedFrom(s, 0) == Some((i, m, e))
    ensures i < |s| && SpeedSplit(s, i, DigitsEnd(s, i), m, e) && ReportedSpeed(s, i, m, e)
    ensures IsDigit(s[i..m][0]) && ParseDecimalPrefix(s[i..m]) == DecimalValue(s[i..DigitsEnd(s, i)], s[DigitsEnd(s, i) + 1..m])
  {
    var j :| SpeedSplit(s, i, j, m, e);
    SpeedPoint(s, i, j, m, e);
    ParseRate(s, i, j, m, e);
  }

  /** `getSpeed`: the reported match, as the value of the whole rate group
      and the unit text. */
  function GetSpeed(s: string): (r: Option<Speed>)
    ensures r.None? <==> forall i, m, e :: !SpeedAt(s, i, m, e)
    ensures r.Some? ==> exists i, j, m, e :: (SpeedSplit(s, i, j, m, e) && ReportedSpeed(s, i, m, e)
      && r.value == Speed(DecimalValue(s[i..j], s[j + 1..m]), s[m..e]))
  {
    match SpeedFrom(s, 0)
    case None => None
    case Some((i, m, e)) =>
      ReportedSpeedFound(s, i, m, e);
      Some(Speed(ParseDecimalPrefix(s[i..m]), s[m..e]))
  }

  /** A line with no decimal point has no speed, e.g. `3MiB/s`. */
  lemma NoPointNoSpeed(s: string)
    requires forall k :: 0 <= k < |s| ==> s[k] != '.'
    ensures GetSpeed(s) == None
  {
    assert forall i, m, e :: !SpeedAt(s, i, m, e);
  }

  lemma NoSpeedExample()
    ensures GetSpeed("3MiB/s") == None
  {
    var s := "3MiB/s";
    assert forall k :: 0 <= k < |s| ==> s[k] != '.';
    NoPointNoSpeed(s);
  }

  /** `typeof` of what `getSpeed` returns: an object or `undefined`. */
  function TypeOf(v: Option<Speed>): (r: string)
  {
    if v.Some? then "object" else "undefined"
  }

  /** The handler's speed branch is never taken, so `item.speed` is never
      assigned. */
  lemma SpeedNeverString(output: string)
    ensures TypeOf(GetSpeed(output)) != "string"
  {
    var r := TypeOf(GetSpeed(output));
    assert r[0] != 's';
  }

  // ---------------------------------------------------------------------
  // isComplete and the progress value of a line

  /** `isComplete`: only the exact text `100%` counts as complete. */
  predicate IsComplete(p: string): (r: bool)
    ensures r ==> |p| > 0 && IsDigit(p[0]) && ParseDecimalPrefix(p) == 100.0
  {
    CompleteReadsHundred();
    p == "100%"
  }

  /** The complete text reads as the number 100. */
  lemma CompleteReadsHundred()
    ensures ParseDecimalPrefix("100%") == 100.0
  {
    var s := "100%";
    assert DigitsEnd(s, 3) == 3;
    assert DigitsEnd(s, 0) == 3;
    assert s[..3] == "100" && "100"[..2] == "10" && "10"[..1] == "1" && "1"[..0] == "";
    assert DigitsValue("100") == 100;
  }

  /** `100.0%` is not complete, though it is a full percentage. */
  lemma CompleteOnlyExact()
    ensures IsComplete("100%") && !IsComplete("100.0%")
  {
    assert "100.0%"[3] != "100%"[3];
  }

  /** The number `parseFloat` reads from a match: its digits and at most
      one decimal, since point-digit pairs after the first are ignored. */
  ghost function PercentageNumber(s: string, i: int, d: int, e: int): real
    requires PercentageSplit(s, i, d, e)
  {
    if i + d < e - 1 then
      assert s[i + d + 1] == s[i + d..e - 1][1];
      DecimalValue(s[i..i + d], [s[i + d + 1]])
    else DecimalValue(s[i..i + d], "")
  }

  /** The value a `progress` message hands on: the parsed percentage when
      one is found and it is not `100%`. */
  function ProgressValue(output: string): (r: Option<real>)
    ensures r.Some? <==> GetPercentage(output).Some? && GetPercentage(output).value != "100%"
    ensures r.Some? ==> exists i, d, e :: (PercentageSplit(output, i, d, e)
      && output[i..e] == GetPercentage(output).value && r.value == PercentageNumber(output, i, d, e))
  {
    var pct := GetPercentage(output);
    if pct.Some? && !IsComplete(pct.value) then
      PercentageFound(output);
      Some(ParseDecimalPrefix(pct.value))
    else None
  }

  /** The reported percentage starts with a digit and is read as its
      digits and at most one decimal. */
  lemma PercentageFound(s: string)
    requires GetPercentage(s).Some?
    ensures |GetPercentage(s).value| > 0 && IsDigit(GetPercentage(s).value[0])
    ensures exists i, d, e :: (PercentageSplit(s, i, d, e) && s[i..e] == GetPercentage(s).value
      && ParseDecimalPrefix(GetPercentage(s).value) == PercentageNumber(s, i, d, e))
  {
    var i, e :| PercentageAt(s, i, e) && s[i..e] == GetPercentage(s).value;
    var d :| PercentageSplit(s, i, d, e);
    PercentageValue(s, i, d, e);
  }

  // ---------------------------------------------------------------------
  // createDownloadItem

  /** The `DownloadParameters` of one download. */
  datatype Parameters = Parameters(
    url: string,
    outputDir: string,
    videoTitle: string,
    audioFormat: FormatItem,
    videoFormat: FormatItem)

  /** The tree `createDownloadItem` builds: the video under its URL with
      an audio and a video part, both sized by the audio format. */
  function NewTree(data: Parameters): (r: Item)
    ensures r.id == data.url && r.labelText == data.videoTitle && r.progress == 0.0
    ensures |r.items| == 2 && r.items[0].id == "audio" && r.items[1].id == "video"
    ensures forall i :: 0 <= i < 2 ==>
      r.items[i].items == [] && r.items[i].progress == 0.0 && r.items[i].size == data.audioFormat.format.filesize
  {
    var size := data.audioFormat.format.filesize;
    Item(data.url, data.videoTitle, Some(""), "", 0.0,
      [Item("audio", "Audio", size, "", 0.0, []), Item("video", "Video", size, "", 0.0, [])])
  }

  /** A new download starts at 0 and is not done; its parts are found under
      `audio` and `video`, and the video part carries the audio size. */
  lemma NewTreeFacts(data: Parameters)
    ensures Progress(NewTree(data)) == 0.0 && !Done(NewTree(data))
    ensures data.url != "audio" ==> ProgressTree.Get(NewTree(data), "audio") == Some(NewTree(data).items[0])
    ensures data.url != "video" ==> ProgressTree.Get(NewTree(data), "video") == Some(NewTree(data).items[1])
    ensures NewTree(data).items[1].size == data.audioFormat.format.filesize
  {
    var t := NewTree(data);
    var ts := t.items;
    var a := ts[0];
    var v := ts[1];
    assert ts[..1] == [a] && [a][..0] == [];
    assert Sum([a]) == 0.0;
    assert Sum(ts) == 0.0;
    assert "audio" != "video" by { assert "audio"[0] != "video"[0]; }
    assert Get(a, "audio") == Some(a);
    assert Get(a, "video") == None;
    assert ts[1..] == [v] && Find(ts[1..], "video") == Some(v);
  }

  /** `createDownloadItem`: a fresh object tree holding `NewTree(data)`. */
  method CreateDownloadItem(data: Parameters) returns (root: Engine.DownloadItem)
    ensures root.Valid() && fresh(root.Repr)
    ensures root.Model() == NewTree(data)
  {
    var size := data.audioFormat.format.filesize;
    var audio := new Engine.DownloadItem(Engine.ItemArgs(Some("audio"), Some("Audio"), Some(size), None, None, None));
    var video := new Engine.DownloadItem(Engine.ItemArgs(Some("video"), Some("Video"), Some(size), None, None, None));
    root := new Engine.DownloadItem(Engine.ItemArgs(Some(data.url), Some(data.videoTitle), None, None, None, Some([audio, video])));
  }

  // ---------------------------------------------------------------------
  // useDownloadVideo

  datatype ActionState = Downloading | Finished

  /** An entry of the `actions` map; the channel and the promise are not
      modelled. */
  datatype Action = Action(id: string, item: Engine.DownloadItem, state: ActionState)

  /** The arguments of the `download` command the effect invokes. */
  datatype Invocation = Invocation(url: string, outputDir: string, audioFormat: string, videoFormat: string)

  /** The events the backend sends over the channel. */
  datatype Message = StartedMessage | ProgressMessage(output: string) | FinishedMessage

  /** The hook's state, with every update applied at once. */
  class DownloadVideoHook {
    /** `downloadParams`, keyed by URL. */
    var downloadParams: map<string, Parameters>
    /** The entry the effect reads, the parameters of the last `download`. */
    var latest: Option<Parameters>
    var actions: map<string, Action>

    constructor()
      ensures downloadParams == map[] && latest == None && actions == map[]
    {
      downloadParams := map[];
      latest := None;
      actions := map[];
    }

    /** `download(data)`: records the parameters under the URL. */
    method Download(data: Parameters)
      modifies this
      ensures downloadParams == old(downloadParams)[data.url := data]
      ensures latest == Some(data) && actions == old(actions)
    {
      downloadParams := downloadParams[data.url := data];
      latest := Some(data);
    }

    /** The effect's guard: there are parameters and their download is not
        already running. */
    predicate ShouldStart()
      reads this
    {
      latest.Some? && (latest.value.url !in actions || actions[latest.value.url].state != Downloading)
    }

    /** The effect on a change of `downloadParams`: when the guard holds,
        a new item tree is created, the `download` command is invoked with
        the URL, the output directory and the two format identifiers, and
        the action is recorded as downloading. */
    method Effect() returns (call: Option<Invocation>)
      modifies this
      ensures downloadParams == old(downloadParams) && latest == old(latest)
      ensures call.Some? <==> old(ShouldStart())
      ensures !old(ShouldStart()) ==> actions == old(actions)
      ensures old(ShouldStart()) ==>
        var p := latest.value;
        && call == Some(Invocation(p.url, p.outputDir, p.audioFormat.format.formatId, p.videoFormat.format.formatId))
        && p.url in actions && actions == old(actions)[p.url := actions[p.url]]
        && actions[p.url].id == p.url && actions[p.url].state == Downloading
        && fresh(actions[p.url].item.Repr) && actions[p.url].item.Valid()
        && actions[p.url].item.Model() == NewTree(p)
    {
      if !ShouldStart() {
        return None;
      }
      var p := latest.value;
      var item := CreateDownloadItem(p);
      var action := Action(p.url, item, Downloading);
      call := Some(Invocation(p.url, p.outputDir, p.audioFormat.format.formatId, p.videoFormat.format.formatId));
      actions := actions[action.id := action];
    }

    /** The channel handler of the download started with `action`. A
        progress line with a percentage other than `100%` hands the parsed
        value to `item.updateProgress`, returned here. Taking that call to
        return normally, the handler then puts `action` back in the map, so
        its state would be `downloading` again even after a `finished`.
        The engine's item has no `updateProgress`, so in JavaScript the call
        throws before the map is written. The speed is computed but never
        stored. `finished` marks the action finished and leaves the item as
        it is. */
    method OnMessage(action: Action, msg: Message) returns (update: Option<real>)
      modifies this
      ensures downloadParams == old(downloadParams) && latest == old(latest)
      ensures update == (if msg.ProgressMessage? then ProgressValue(msg.output) else None)
      ensures msg.ProgressMessage? && update.Some? ==> actions == old(actions)[action.id := action]
      ensures msg.FinishedMessage? ==> actions == old(actions)[action.id := action.(state := Finished)]
      ensures msg.StartedMessage? || (msg.ProgressMessage? && update.None?) ==> actions == old(actions)
    {
      update := None;
      match msg {
        case ProgressMessage(output) =>
          var percentage := GetPercentage(output);
          var speed := GetSpeed(output);
          if percentage.Some? && !IsComplete(percentage.value) {
            update := ProgressValue(output);
            actions := actions[action.id := action];
          }
        case FinishedMessage =>
          actions := actions[action.id := action.(state := Finished)];
        case StartedMessage =>
      }
    }

    /** `isDownloading`: some action's item is not done. */
    method IsDownloading() returns (b: bool)
      ensures b <==> exists id :: id in actions && !actions[id].item.Done()
    {
      var rest := actions.Keys;
      while rest != {}
        invariant rest <= actions.Keys
        invariant forall id :: id in actions && id !in rest ==> actions[id].item.Done()
        decreases rest
      {
        var id :| id in rest;
        if !actions[id].item.Done() {
          return true;
        }
        rest := rest - {id};
      }
      return false;
    }
  }

  /** A download runs once: the first effect starts it, the download is
      then in progress, and downloading the same parameters again does
      not start it again. After `finished` the same parameters start a new
      download. */
  method DispatchScenario(data: Parameters) returns (first: Option<Invocation>, running: bool, again: Option<Invocation>, restarted: Option<Invocation>)
    ensures first.Some? && first.value.url == data.url
    ensures running && again.None? && restarted.Some?
  {
    var hook := new DownloadVideoHook();
    hook.Download(data);
    first := hook.Effect();
    var action := hook.actions[data.url];
    NewTreeFacts(data);
    running := hook.IsDownloading();
    hook.Download(data);
    again := hook.Effect();
    var none := hook.OnMessage(action, FinishedMessage);
    hook.Download(data);
    restarted := hook.Effect();
  }

  /** If `item.updateProgress` returned normally, a progress line arriving
      after `finished` would put the action back as downloading, so the
      same parameters would no longer start a new download. */
  method ProgressAfterFinished(data: Parameters, output: string) returns (again: Option<Invocation>)
    requires ProgressValue(output).Some?
    ensures again.None?
  {
    var hook := new DownloadVideoHook();
    hook.Download(data);
    var first := hook.Effect();
    var action := hook.actions[data.url];
    var none := hook.OnMessage(action, FinishedMessage);
    var update := hook.OnMessage(action, ProgressMessage(output));
    assert update.Some? && hook.actions[data.url] == action;
    hook.Download(data);
    again := hook.Effect();
  }
}
