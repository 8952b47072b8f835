/** How many candidates `generate_combinations` can yield: a bound for one
    core, for the cores built from the variants, and for the variant sets. */
module Bounds {
  import opened Text
  import opened Seqs
  import Leet
  import opened Combinations

  /** The most one core yields in a mode: the core, one candidate per number
      and separator (and, in full mode, one more per symbol), and one per year
      token (in full mode, one more per symbol). */
  function PerCore(tk: Tokens, mode: Mode): nat {
    var n, s, p, d := |tk.numbers|, |tk.symbols|, |tk.separators|, |tk.yearTokens|;
    if mode == Basic then 1 + n * p + d else 1 + p * (n * (1 + s)) + d * (1 + s)
  }

  lemma {:induction false} BasicSepsLength(core: string, num: string, seps: seq<string>, cfg: Config)
    ensures |BasicSeps(core, num, seps, cfg)| <= |seps|
  {
    if seps != [] {
      BasicSepsLength(core, num, seps[..|seps| - 1], cfg);
    }
  }

  lemma {:induction false} BasicNumsLength(core: string, nums: seq<string>, seps: seq<string>, cfg: Config)
    ensures |BasicNums(core, nums, seps, cfg)| <= |nums| * |seps|
  {
    if nums != [] {
      BasicNumsLength(core, nums[..|nums| - 1], seps, cfg);
      BasicSepsLength(core, nums[|nums| - 1], seps, cfg);
      assert |nums| * |seps| == (|nums| - 1) * |seps| + |seps|;
    }
  }

  lemma {:induction false} BasicYearsLength(core: string, dts: seq<string>, cfg: Config)
    ensures |BasicYears(core, dts, cfg)| <= |dts|
  {
    if dts != [] {
      BasicYearsLength(core, dts[..|dts| - 1], cfg);
    }
  }

  lemma {:induction false} NumSymsLength(core: string, sep: string, num: string, syms: seq<string>, cfg: Config)
    ensures |NumSyms(core, sep, num, syms, cfg)| <= |syms|
  {
    if syms != [] {
      NumSymsLength(core, sep, num, syms[..|syms| - 1], cfg);
    }
  }

  lemma {:induction false} FullNumsLength(core: string, sep: string, nums: seq<string>, syms: seq<string>, cfg: Config)
    ensures |FullNums(core, sep, nums, syms, cfg)| <= |nums| * (1 + |syms|)
  {
    if nums != [] {
      FullNumsLength(core, sep, nums[..|nums| - 1], syms, cfg);
      NumSymsLength(core, sep, nums[|nums| - 1], syms, cfg);
      assert |nums| * (1 + |syms|) == (|nums| - 1) * (1 + |syms|) + 1 + |syms|;
    }
  }

  lemma {:induction false} FullSepsLength(core: string, seps: seq<string>, nums: seq<string>, syms: seq<string>, cfg: Config)
    ensures |FullSeps(core, seps, nums, syms, cfg)| <= |seps| * (|nums| * (1 + |syms|))
  {
    if seps != [] {
      FullSepsLength(core, seps[..|seps| - 1], nums, syms, cfg);
      FullNumsLength(core, seps[|seps| - 1], nums, syms, cfg);
      var k := |nums| * (1 + |syms|);
      assert |seps| * k == (|seps| - 1) * k + k;
    }
  }

  lemma {:induction false} YearSymsLength(core: string, dt: string, syms: seq<string>, cfg: Config)
    ensures |YearSyms(core, dt, syms, cfg)| <= |syms|
  {
    if syms != [] {
      YearSymsLength(core, dt, syms[..|syms| - 1], cfg);
    }
  }

  lemma {:induction false} FullYearsLength(core: string, dts: seq<string>, syms: seq<string>, cfg: Config)
    ensures |FullYears(core, dts, syms, cfg)| <= |dts| * (1 + |syms|)
  {
    if dts != [] {
      FullYearsLength(core, dts[..|dts| - 1], syms, cfg);
      YearSymsLength(core, dts[|dts| - 1], syms, cfg);
      assert |dts| * (1 + |syms|) == (|dts| - 1) * (1 + |syms|) + 1 + |syms|;
    }
  }

  /** One core yields at most `PerCore` candidates (fewer when some are
      filtered by length or a symbol is empty). */
  lemma CoreOutLength(core: string, tk: Tokens, cfg: Config)
    ensures |CoreOut(core, tk, cfg)| <= PerCore(tk, cfg.mode)
  {
    if cfg.mode == Basic {
      BasicNumsLength(core, tk.numbers, tk.separators, cfg);
      BasicYearsLength(core, tk.yearTokens, cfg);
    } else {
      FullSepsLength(core, tk.separators, tk.numbers, tk.symbols, cfg);
      FullYearsLength(core, tk.yearTokens, tk.symbols, cfg);
    }
  }

  lemma {:induction false} FlattenLength(parts: seq<seq<string>>, b: nat)
    requires forall k :: 0 <= k < |parts| ==> |parts[k]| <= b
    ensures |Flatten(parts)| <= |parts| * b
  {
    if parts != [] {
      var p := parts[..|parts| - 1];
      assert forall k :: 0 <= k < |p| ==> p[k] == parts[k];
      FlattenLength(p, b);
      assert |parts| * b == |p| * b + b;
    }
  }

  /** The cores yield at most `PerCore` candidates each. */
  lemma EmitLength(cores: seq<string>, tk: Tokens, cfg: Config)
    ensures |Emit(cores, tk, cfg)| <= |cores| * PerCore(tk, cfg.mode)
  {
    var outs := CoreOuts(cores, tk, cfg);
    forall k | 0 <= k < |outs| ensures |outs[k]| <= PerCore(tk, cfg.mode) {
      CoreOutLength(cores[k], tk, cfg);
    }
    FlattenLength(outs, PerCore(tk, cfg.mode));
  }

  lemma {:induction false} SuffixCoresLength(pre: string, v: string, sufs: seq<string>)
    ensures |SuffixCores(pre, v, sufs)| == |sufs|
  {
    if sufs != [] {
      SuffixCoresLength(pre, v, sufs[..|sufs| - 1]);
    }
  }

  lemma {:induction false} PrefixCoresLength(v: string, pres: seq<string>, sufs: seq<string>)
    ensures |PrefixCores(v, pres, sufs)| == |pres| * |sufs|
  {
    if pres != [] {
      PrefixCoresLength(v, pres[..|pres| - 1], sufs);
      SuffixCoresLength(pres[|pres| - 1], v, sufs);
      assert |pres| * |sufs| == (|pres| - 1) * |sufs| + |sufs|;
    }
  }

  /** Every variant gives one core per prefix and suffix. */
  lemma {:induction false} VariantCoresLength(order: seq<string>, pres: seq<string>, sufs: seq<string>)
    ensures |VariantCores(order, pres, sufs)| == |order| * (|pres| * |sufs|)
  {
    if order != [] {
      VariantCoresLength(order[..|order| - 1], pres, sufs);
      PrefixCoresLength(order[|order| - 1], pres, sufs);
      var k := |pres| * |sufs|;
      assert |order| * k == (|order| - 1) * k + k;
    }
  }

  lemma {:induction false} WordsCoresLength(orders: seq<seq<string>>, pres: seq<string>, sufs: seq<string>, v: nat)
    requires forall i :: 0 <= i < |orders| ==> |orders[i]| <= v
    ensures |WordsCores(orders, pres, sufs)| <= |orders| * (v * (|pres| * |sufs|))
  {
    if orders != [] {
      var p, l := orders[..|orders| - 1], orders[|orders| - 1];
      assert forall i :: 0 <= i < |p| ==> p[i] == orders[i];
      WordsCoresLength(p, pres, sufs, v);
      VariantCoresLength(l, pres, sufs);
      var k := |pres| * |sufs|;
      MulMono(|l|, v, k, k);
      assert |WordsCores(orders, pres, sufs)|
             == |WordsCores(p, pres, sufs)| + |VariantCores(l, pres, sufs)|;
      MulSucc(|p|, v * k);
    }
  }

  lemma MulSucc(a: int, m: int)
    ensures (a + 1) * m == a * m + m
  {
  }

  lemma MulMono(a: int, b: int, c: int, d: int)
    requires 0 <= a <= b && 0 <= c <= d
    ensures a * c <= b * d
  {
    assert a * c <= b * c;
    assert b * c <= b * d;
  }

  // -------------------------------------------------------------- variants

  /** The largest variant set: the four case forms, and with leet on one
      string and its capitalised form for each of the at most 32 expander
      strings. */
  function MaxVariants(useLeet: bool): nat {
    if useLeet then 4 + 2 * Leet.DefaultMaxVariants else 4
  }

  lemma {:induction false} LeetFormsSize(lvs: seq<string>)
    ensures |LeetForms(lvs)| <= 2 * |lvs|
  {
    if lvs != [] {
      var p, l := lvs[..|lvs| - 1], lvs[|lvs| - 1];
      LeetFormsSize(p);
      SetUnionSize(LeetForms(p), {l, Capitalize(l)});
      assert |{l, Capitalize(l)}| <= 2 by {
        SetUnionSize({l}, {Capitalize(l)});
      }
    }
  }

  /** A base word has at most `MaxVariants` variants. */
  lemma VariantsSize(base: string, useLeet: bool)
    ensures |Variants(base, useLeet)| <= MaxVariants(useLeet)
  {
    var four := {base, Lower(base), Upper(base), Capitalize(base)};
    FourSize(base, Lower(base), Upper(base), Capitalize(base));
    if useLeet {
      var lvs := Leet.LeetVariants(base, Leet.DefaultLeetMap, Leet.DefaultMaxVariants);
      Leet.LeetVariantsCount(base, Leet.DefaultLeetMap, Leet.DefaultMaxVariants);
      LeetFormsSize(lvs);
      SetUnionSize(four, LeetForms(lvs));
    }
  }

  /** An enumeration of a set has one entry per member. */
  lemma {:induction false} EnumeratesSize(order: seq<string>, s: set<string>)
    requires Enumerates(order, s)
    ensures |order| == |s|
  {
    if order == [] {
      assert forall x :: x !in s;
      assert s == {};
    } else {
      var p, l := order[..|order| - 1], order[|order| - 1];
      InitLast(order);
      assert NoDup(p) by {
        NoDupPrefix(p, order);
      }
      assert l !in p;
      assert Enumerates(p, s - {l});
      EnumeratesSize(p, s - {l});
    }
  }

  /** The orders list each word's variants, so none is longer than `MaxVariants`. */
  lemma OrdersSize(words: seq<string>, orders: seq<seq<string>>, useLeet: bool)
    requires ValidOrders(words, orders, useLeet)
    ensures |orders| == |words|
    ensures forall i :: 0 <= i < |orders| ==> |orders[i]| <= MaxVariants(useLeet)
  {
    forall i | 0 <= i < |orders| ensures |orders[i]| <= MaxVariants(useLeet) {
      EnumeratesSize(orders[i], Variants(words[i], useLeet));
      VariantsSize(words[i], useLeet);
    }
  }

  /** The generator yields at most this many candidates for the normalised
      words: words times variants times prefixes times suffixes times `PerCore`. */
  lemma GenerateLength(words: seq<string>, orders: seq<seq<string>>, tk: Tokens, cfg: Config)
    requires ValidOrders(words, orders, cfg.useLeet)
    ensures |WordsOut(orders, tk, cfg)|
            <= |words| * (MaxVariants(cfg.useLeet) * (|tk.prefixes| * |tk.suffixes|)) * PerCore(tk, cfg.mode)
  {
    OrdersSize(words, orders, cfg.useLeet);
    var cores := WordsCores(orders, tk.prefixes, tk.suffixes);
    WordsCoresLength(orders, tk.prefixes, tk.suffixes, MaxVariants(cfg.useLeet));
    EmitLength(cores, tk, cfg);
    MulMono(|cores|, |words| * (MaxVariants(cfg.useLeet) * (|tk.prefixes| * |tk.suffixes|)),
            PerCore(tk, cfg.mode), PerCore(tk, cfg.mode));
  }
}
