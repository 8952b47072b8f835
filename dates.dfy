/** The year/date token builder, `build_dates`, and the choice of year tokens
    made in `main` when no range is given. */
module Dates {
  import opened Text
  import opened Seqs

  /** The five tokens one year contributes, in the order they are appended. */
  function TokensOfYear(y: int): seq<string> {
    var s := IntToString(y);
    [s, "01" + s, s + "01", "0101", "1010"]
  }

  /** Every token appended for the years `start..end`, before deduplication. */
  function RawDates(start: int, end: int): (r: seq<string>)
    decreases end - start
  {
    if end < start then [] else RawDates(start, end - 1) + TokensOfYear(end)
  }

  /** `build_dates(start, end)` */
  method BuildDates(start: int, end: int) returns (out: seq<string>)
    ensures out == Dedup(RawDates(start, end))
  {
    var dates: seq<string> := [];
    var y := start;
    while y <= end
      invariant start <= end + 1 ==> start <= y <= end + 1
      invariant start > end ==> y == start
      invariant dates == RawDates(start, y - 1)
      decreases end - y
    {
      var ys := IntToString(y);
      ghost var before := dates;
      dates := dates + [ys];
      dates := dates + ["01" + ys];
      dates := dates + [ys + "01"];
      dates := dates + ["0101"];
      dates := dates + ["1010"];
      assert dates == before + TokensOfYear(y);
      RawDatesSnoc(start, y);
      y := y + 1;
    }
    out := KeepFirstOccurrences(dates);
  }

  /** The second loop of `build_dates`: `if d not in seen: seen.add(d); out.append(d)`. */
  method KeepFirstOccurrences(dates: seq<string>) returns (out: seq<string>)
    ensures out == Dedup(dates)
  {
    var seen: set<string> := {};
    out := [];
    for i := 0 to |dates|
      invariant out == Dedup(dates[..i])
      invariant forall x :: x in seen <==> x in out
    {
      var d := dates[i];
      DedupStep(dates, i);
      if d !in seen {
        seen := seen + {d};
        out := out + [d];
      }
    }
    assert dates[..|dates|] == dates;
  }

  lemma RawDatesSnoc(start: int, y: int)
    requires start <= y
    ensures RawDates(start, y) == RawDates(start, y - 1) + TokensOfYear(y)
  {
  }

  lemma {:induction false} RawDatesMember(start: int, end: int, d: string)
    ensures d in RawDates(start, end) <==> exists y :: start <= y <= end && d in TokensOfYear(y)
    decreases end - start
  {
    if end >= start {
      RawDatesMember(start, end - 1, d);
      if d in RawDates(start, end) && d !in RawDates(start, end - 1) {
        assert d in TokensOfYear(end);
      }
      if exists y :: start <= y <= end && d in TokensOfYear(y) {
        var y :| start <= y <= end && d in TokensOfYear(y);
        if y == end {
          assert d in RawDates(start, end);
        }
      }
    }
  }

  /** The tokens of `build_dates(start, end)` are distinct, they are exactly the
      tokens of the years `start..end` (the fixed `0101` and `1010` included
      whenever the range is not empty), and the range `start > end` gives none. */
  lemma BuildDatesContents(start: int, end: int, d: string)
    ensures NoDup(Dedup(RawDates(start, end)))
    ensures d in Dedup(RawDates(start, end)) <==>
              (start <= end && (d == "0101" || d == "1010")) ||
              exists y :: start <= y <= end &&
                (d == IntToString(y) || d == "01" + IntToString(y) || d == IntToString(y) + "01")
    ensures start > end ==> Dedup(RawDates(start, end)) == []
  {
    DedupMember(RawDates(start, end), d);
    RawDatesMember(start, end, d);
    if d in RawDates(start, end) {
      var y :| start <= y <= end && d in TokensOfYear(y);
      InTokensOfYear(y, d);
    }
    if start <= end && (d == "0101" || d == "1010") {
      InTokensOfYear(start, d);
    }
    if exists y :: start <= y <= end &&
         (d == IntToString(y) || d == "01" + IntToString(y) || d == IntToString(y) + "01") {
      var y :| start <= y <= end &&
         (d == IntToString(y) || d == "01" + IntToString(y) || d == IntToString(y) + "01");
      InTokensOfYear(y, d);
    }
  }

  lemma InTokensOfYear(y: int, d: string)
    ensures d in TokensOfYear(y) <==>
              d == IntToString(y) || d == "01" + IntToString(y) || d == IntToString(y) + "01" ||
              d == "0101" || d == "1010"
  {
  }

  /** `build_dates(2020, 2021)`: the second year's `0101` and `1010` are dropped
      as repeats, so eight tokens remain. */
  lemma BuildDatesExample()
    ensures Dedup(RawDates(2020, 2021))
              == ["2020", "012020", "202001", "0101", "1010", "2021", "012021", "202101"]
  {
    var x := ["2020", "012020", "202001", "0101", "1010", "2021", "012021", "202101"];
    RawDatesExample();
    ExampleTokensDistinct();
    DedupOfNoDup(x);
    assert x[3] == "0101";
    DedupSnoc(x, "0101");
    assert (x + ["0101"])[4] == "1010";
    DedupSnoc(x + ["0101"], "1010");
  }

  lemma ExampleTokensDistinct()
    ensures NoDup(["2020", "012020", "202001", "0101", "1010", "2021", "012021", "202101"])
  {
    var x := ["2020", "012020", "202001", "0101", "1010", "2021", "012021", "202101"];
    forall i, j | 0 <= i < j < |x| ensures x[i] != x[j] {
      if |x[i]| == |x[j]| {
        assert x[i][|x[i]| - 1] != x[j][|x[j]| - 1] || x[i][1] != x[j][1] || x[i][2] != x[j][2] ||
               x[i][3] != x[j][3];
      }
    }
  }

  lemma RawDatesExample()
    ensures RawDates(2020, 2021)
              == ["2020", "012020", "202001", "0101", "1010", "2021", "012021", "202101"]
                 + ["0101"] + ["1010"]
  {
    assert RawDates(2020, 2019) == [];
    assert RawDates(2020, 2020) == TokensOfYear(2020);
    TokensOfYearExample();
    assert RawDates(2020, 2021) == RawDates(2020, 2020) + TokensOfYear(2021);
  }

  lemma TokensOfYearExample()
    ensures TokensOfYear(2020) == ["2020", "012020", "202001", "0101", "1010"]
    ensures TokensOfYear(2021) == ["2021", "012021", "202101", "0101", "1010"]
  {
    YearStringExample();
    assert "01" + "2020" == "012020" && "2020" + "01" == "202001";
    assert "01" + "2021" == "012021" && "2021" + "01" == "202101";
  }

  lemma YearStringExample()
    ensures IntToString(2020) == "2020" && IntToString(2021) == "2021"
  {
    assert NatToString(2) == "2";
    assert NatToString(20) == NatToString(2) + "0";
    assert NatToString(202) == NatToString(20) + "2";
    assert NatToString(2020) == NatToString(202) + "0";
    assert NatToString(2021) == NatToString(202) + "1";
  }

  /** The year tokens `main` uses when no range is given: the current year
      (a parameter here), `01` followed by it, `0101`, `1010` and the fixed `2020`. */
  function DefaultYearTokens(currentYear: int): (r: seq<string>)
    ensures |r| == 5 && "2020" in r && "0101" in r && "1010" in r
    ensures IntToString(currentYear) in r && "01" + IntToString(currentYear) in r
  {
    var s := IntToString(currentYear);
    [s, "01" + s, "0101", "1010", "2020"]
  }

  /** `main` lines choosing the year tokens: `build_dates` on an explicit range,
      otherwise the defaults for the current year. */
  method SelectYearTokens(years: (bool, int, int), currentYear: int) returns (tokens: seq<string>)
    ensures years.0 ==> tokens == Dedup(RawDates(years.1, years.2))
    ensures !years.0 ==> tokens == DefaultYearTokens(currentYear)
  {
    if years.0 {
      tokens := BuildDates(years.1, years.2);
    } else {
      tokens := DefaultYearTokens(currentYear);
    }
  }
}
