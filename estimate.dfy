/** `estimate_count`: the rough size printed before generating, and how it
    relates to what the generator yields. */
module Estimate {
  import opened Seqs
  import opened Combinations
  import opened Bounds

  /** `len(xs) if xs else 1`: an empty list counts as one. */
  function CountOrOne(xs: seq<string>): (r: nat)
    ensures r >= 1 && r >= |xs|
  {
    if xs != [] then |xs| else 1
  }

  /** `estimate_count(...)` for a mode already parsed by `ModeOf`. */
  function EstimateCount(baseWords: seq<string>, numbers: seq<string>, symbols: seq<string>,
                         prefixes: seq<string>, suffixes: seq<string>, yrs: seq<string>, mode: Mode): (r: int)
    ensures r >= 0
    ensures r == 0 <==> baseWords == []
  {
    var bw := |baseWords|;
    var n, s := CountOrOne(numbers), CountOrOne(symbols);
    var p, suf := CountOrOne(prefixes), CountOrOne(suffixes);
    var y := Max(1, |yrs|);
    assert p * suf >= 1 by {
      MulMono(1, p, 1, suf);
    }
    if mode == Basic then
      assert (1 + n + y) >= 1;
      PositiveProduct(bw, p * suf, 1 + n + y);
      bw * (p * suf) * (1 + n + y)
    else
      assert n * (1 + s) >= 0 && y * (1 + s) >= 0;
      PositiveProduct(bw, p * suf, 1 + n * (1 + s) + y * (1 + s));
      bw * (p * suf) * (1 + n * (1 + s) + y * (1 + s))
  }

  lemma PositiveProduct(a: nat, b: int, c: int)
    requires b >= 1 && c >= 1
    ensures a * b * c >= 0
    ensures a * b * c == 0 <==> a == 0
  {
    if a > 0 {
      MulMono(1, a, 1, b);
      MulMono(1, a * b, 1, c);
    }
  }

  /** Full mode adds, per base word, prefix and suffix, one candidate per
      symbol for every number and every year token; so it never estimates
      fewer than basic mode, and strictly more for a non-empty word list. */
  lemma FullExceedsBasic(baseWords: seq<string>, numbers: seq<string>, symbols: seq<string>,
                         prefixes: seq<string>, suffixes: seq<string>, yrs: seq<string>)
    ensures EstimateCount(baseWords, numbers, symbols, prefixes, suffixes, yrs, Full)
            - EstimateCount(baseWords, numbers, symbols, prefixes, suffixes, yrs, Basic)
            == |baseWords| * (CountOrOne(prefixes) * CountOrOne(suffixes))
               * (CountOrOne(symbols) * (CountOrOne(numbers) + Max(1, |yrs|)))
    ensures EstimateCount(baseWords, numbers, symbols, prefixes, suffixes, yrs, Basic)
            <= EstimateCount(baseWords, numbers, symbols, prefixes, suffixes, yrs, Full)
    ensures baseWords != [] ==>
              EstimateCount(baseWords, numbers, symbols, prefixes, suffixes, yrs, Basic)
              < EstimateCount(baseWords, numbers, symbols, prefixes, suffixes, yrs, Full)
  {
    ModeGap(|baseWords|, CountOrOne(prefixes) * CountOrOne(suffixes),
            CountOrOne(numbers), CountOrOne(symbols), Max(1, |yrs|));
  }

  lemma ModeGap(bw: int, ps: int, n: int, s: int, y: int)
    requires bw >= 0 && ps >= 1 && n >= 1 && s >= 1 && y >= 1
    ensures bw * ps * (1 + n * (1 + s) + y * (1 + s)) - bw * ps * (1 + n + y) == bw * ps * (s * (n + y))
    ensures bw > 0 ==> bw * ps * (s * (n + y)) > 0
    ensures bw * ps * (s * (n + y)) >= 0
  {
    var a := bw * ps;
    var m := s * (n + y);
    assert 1 + n * (1 + s) + y * (1 + s) == (1 + n + y) + m;
    assert a * ((1 + n + y) + m) == a * (1 + n + y) + a * m;
    MulMono(1, s, 1, n + y);
    MulMono(0, bw, 0, ps);
    MulMono(0, a, 0, m);
    if bw > 0 {
      MulMono(1, bw, 1, ps);
      MulMono(1, a, 1, m);
    }
  }

  /** The estimate is additive in the base words: estimating two lists one
      after the other gives the sum of their estimates. */
  lemma EstimateAdditive(a: seq<string>, b: seq<string>, numbers: seq<string>, symbols: seq<string>,
                         prefixes: seq<string>, suffixes: seq<string>, yrs: seq<string>, mode: Mode)
    ensures EstimateCount(a + b, numbers, symbols, prefixes, suffixes, yrs, mode)
            == EstimateCount(a, numbers, symbols, prefixes, suffixes, yrs, mode)
               + EstimateCount(b, numbers, symbols, prefixes, suffixes, yrs, mode)
  {
    var k := CountOrOne(prefixes) * CountOrOne(suffixes);
    var n, s, y := CountOrOne(numbers), CountOrOne(symbols), Max(1, |yrs|);
    var m := if mode == Basic then 1 + n + y else 1 + n * (1 + s) + y * (1 + s);
    assert EstimateCount(a + b, numbers, symbols, prefixes, suffixes, yrs, mode) == (|a| + |b|) * k * m;
    SumTimes(|a|, |b|, k, m);
  }

  lemma SumTimes(x: int, y: int, k: int, m: int)
    ensures (x + y) * k * m == x * k * m + y * k * m
  {
  }

  /** The per-word factor of the estimate, for one prefix and one suffix. */
  function PerCoreEstimate(tk: Tokens, mode: Mode): (r: int)
    ensures r >= 1
  {
    var n, s, y := CountOrOne(tk.numbers), CountOrOne(tk.symbols), Max(1, |tk.yearTokens|);
    assert n * (1 + s) >= 0 && y * (1 + s) >= 0;
    if mode == Basic then 1 + n + y else 1 + n * (1 + s) + y * (1 + s)
  }

  /** The estimate does not count separators: one core yields at most the
      per-word factor times the number of separators (one when there are none). */
  lemma PerCoreWithinEstimate(tk: Tokens, mode: Mode)
    ensures PerCore(tk, mode) <= PerCoreEstimate(tk, mode) * Max(1, |tk.separators|)
  {
    var n0, s0, p0, d0 := |tk.numbers|, |tk.symbols|, |tk.separators|, |tk.yearTokens|;
    var n, s, y := CountOrOne(tk.numbers), CountOrOne(tk.symbols), Max(1, |tk.yearTokens|);
    if mode == Basic {
      BasicFactor(n0, n, p0, Max(1, p0), d0, y);
    } else {
      FullFactor(n0, n, s0, s, p0, Max(1, p0), d0, y);
    }
  }

  lemma BasicFactor(n0: int, n: int, p0: int, sp: int, d0: int, y: int)
    requires 0 <= n0 <= n && 0 <= p0 <= sp && 1 <= sp && 0 <= d0 <= y
    ensures 1 + n0 * p0 + d0 <= (1 + n + y) * sp
  {
    MulMono(n0, n, p0, sp);
    MulMono(d0, y, 1, sp);
    assert (1 + n + y) * sp == sp + n * sp + y * sp;
  }

  lemma FullFactor(n0: int, n: int, s0: int, s: int, p0: int, sp: int, d0: int, y: int)
    requires 0 <= n0 <= n && 0 <= s0 <= s && 0 <= p0 <= sp && 1 <= sp && 0 <= d0 <= y
    ensures 1 + p0 * (n0 * (1 + s0)) + d0 * (1 + s0) <= (1 + n * (1 + s) + y * (1 + s)) * sp
  {
    var a0, a := n0 * (1 + s0), n * (1 + s);
    var b0, b := d0 * (1 + s0), y * (1 + s);
    MulMono(n0, n, 1 + s0, 1 + s);
    MulMono(d0, y, 1 + s0, 1 + s);
    MulMono(p0, sp, a0, a);
    MulMono(b0, b, 1, sp);
    Distrib(1, a, b, sp);
    assert sp * a == a * sp;
  }

  lemma Distrib(x: int, y: int, z: int, m: int)
    ensures (x + y + z) * m == x * m + y * m + z * m
  {
  }

  lemma {:induction false} StripAllLength(bs: seq<string>)
    ensures |StripAll(bs)| <= |bs|
  {
    if bs != [] {
      StripAllLength(bs[..|bs| - 1]);
    }
  }

  /** The estimate is an upper bound up to the two factors it leaves out: the
      generator yields at most the estimate times the number of separators
      (one when there are none) times the largest size of a variant set. */
  lemma EstimateBoundsOutput(baseWords: seq<string>, orders: seq<seq<string>>, tk: Tokens, cfg: Config)
    requires ValidOrders(NormalizeBaseWords(baseWords), orders, cfg.useLeet)
    ensures |WordsOut(orders, tk, cfg)|
            <= EstimateCount(baseWords, tk.numbers, tk.symbols, tk.prefixes, tk.suffixes, tk.yearTokens, cfg.mode)
               * Max(1, |tk.separators|) * MaxVariants(cfg.useLeet)
  {
    var words := NormalizeBaseWords(baseWords);
    var est := EstimateCount(baseWords, tk.numbers, tk.symbols, tk.prefixes, tk.suffixes, tk.yearTokens, cfg.mode);
    var v, sp := MaxVariants(cfg.useLeet), Max(1, |tk.separators|);
    var pc, e := PerCore(tk, cfg.mode), PerCoreEstimate(tk, cfg.mode);
    var ps0, ps := |tk.prefixes| * |tk.suffixes|, CountOrOne(tk.prefixes) * CountOrOne(tk.suffixes);
    StripAllLength(baseWords);
    GenerateLength(words, orders, tk, cfg);
    assert |WordsOut(orders, tk, cfg)| <= |words| * (v * ps0) * pc;
    PerCoreWithinEstimate(tk, cfg.mode);
    EstimateFactors(baseWords, tk, cfg.mode);
    MulMono(|tk.prefixes|, CountOrOne(tk.prefixes), |tk.suffixes|, CountOrOne(tk.suffixes));
    assert |words| <= |baseWords|;
    assert ps0 <= ps;
    assert pc <= e * sp;
    assert est == |baseWords| * ps * e;
    MulMono(0, |tk.prefixes|, 0, |tk.suffixes|);
    ChainBound(|words|, |baseWords|, v, ps0, ps, pc, e, sp, est);
  }

  /** The estimate is the word count times the prefix and suffix counts times
      the per-word factor. */
  lemma EstimateFactors(baseWords: seq<string>, tk: Tokens, mode: Mode)
    ensures EstimateCount(baseWords, tk.numbers, tk.symbols, tk.prefixes, tk.suffixes, tk.yearTokens, mode)
            == |baseWords| * (CountOrOne(tk.prefixes) * CountOrOne(tk.suffixes)) * PerCoreEstimate(tk, mode)
  {
  }

  lemma ChainBound(w: int, b: int, v: int, ps0: int, ps: int, pc: int, e: int, sp: int, est: int)
    requires 0 <= w <= b && 0 <= v && 0 <= ps0 <= ps && 0 <= e && 0 <= sp && 0 <= pc <= e * sp
    requires est == b * ps * e
    ensures w * (v * ps0) * pc <= est * sp * v
  {
    MulMono(ps0, ps, v, v);
    MulMono(w, b, v * ps0, v * ps);
    MulMono(w * (v * ps0), b * (v * ps), pc, e * sp);
    assert b * (v * ps) * (e * sp) == b * ps * e * sp * v;
  }
}
