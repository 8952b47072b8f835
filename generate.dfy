/** `generate_combinations` as the loops it is written with, each proved to
    yield what the functions of `Combinations` describe. The generator's lazy
    yields are collected into a sequence in yield order. */
module Generate {
  import opened Text
  import opened Seqs
  import Leet
  import opened Combinations

  /** `variants = {base, base.lower(), base.upper(), base.capitalize()}`, then,
      with leet on, every expander string and its capitalised form. */
  method WordVariants(base: string, useLeet: bool) returns (variants: set<string>)
    ensures variants == Variants(base, useLeet)
  {
    variants := {base, Lower(base), Upper(base), Capitalize(base)};
    if useLeet {
      var lvs := Leet.GenerateLeetVariants(base, Leet.DefaultLeetMap, Leet.DefaultMaxVariants);
      for k := 0 to |lvs|
        invariant variants == {base, Lower(base), Upper(base), Capitalize(base)} + LeetForms(lvs[..k])
      {
        LeetFormsSnoc(lvs, k);
        variants := variants + {lvs[k]};
        variants := variants + {Capitalize(lvs[k])};
      }
      assert lvs[..|lvs|] == lvs;
    }
  }

  /** `list(variants)`: every member once, in an order left to the set. */
  method ListOf(s: set<string>) returns (order: seq<string>)
    ensures NoDup(order)
    ensures forall x :: x in order <==> x in s
  {
    order := [];
    var rest := s;
    while rest != {}
      invariant rest <= s
      invariant NoDup(order)
      invariant forall x :: x in order <==> x in s && x !in rest
      decreases |rest|
    {
      var v :| v in rest;
      order := order + [v];
      rest := rest - {v};
    }
  }

  /** `for sep in separators` after one number (basic mode). */
  method EmitBasicSeparators(core: string, num: string, seps: seq<string>, cfg: Config)
    returns (out: seq<string>)
    ensures out == BasicSeps(core, num, seps, cfg)
  {
    out := [];
    for j := 0 to |seps|
      invariant out == BasicSeps(core, num, seps[..j], cfg)
    {
      assert seps[..j + 1][..j] == seps[..j];
      var c := if num != "" then core + seps[j] + num else core;
      if cfg.minLen <= |c| <= cfg.maxLen {
        out := out + [c];
      }
    }
    assert seps[..|seps|] == seps;
  }

  /** `for num in numbers: for sep in separators` (basic mode). */
  method EmitBasicNumbers(core: string, nums: seq<string>, seps: seq<string>, cfg: Config)
    returns (out: seq<string>)
    ensures out == BasicNums(core, nums, seps, cfg)
  {
    out := [];
    for i := 0 to |nums|
      invariant out == BasicNums(core, nums[..i], seps, cfg)
    {
      assert nums[..i + 1][..i] == nums[..i];
      var withSeps := EmitBasicSeparators(core, nums[i], seps, cfg);
      out := out + withSeps;
    }
    assert nums[..|nums|] == nums;
  }

  /** `for dt in year_tokens` (basic mode). */
  method EmitBasicYears(core: string, dts: seq<string>, cfg: Config) returns (out: seq<string>)
    ensures out == BasicYears(core, dts, cfg)
  {
    out := [];
    for k := 0 to |dts|
      invariant out == BasicYears(core, dts[..k], cfg)
    {
      assert dts[..k + 1][..k] == dts[..k];
      var c := core + dts[k];
      if cfg.minLen <= |c| <= cfg.maxLen {
        out := out + [c];
      }
    }
    assert dts[..|dts|] == dts;
  }

  /** The basic-mode body for one core. */
  method EmitBasic(core: string, tk: Tokens, cfg: Config) returns (out: seq<string>)
    ensures out == BasicOut(core, tk, cfg)
  {
    out := [];
    if cfg.minLen <= |core| <= cfg.maxLen {
      out := out + [core];
    }
    var withNumbers := EmitBasicNumbers(core, tk.numbers, tk.separators, cfg);
    out := out + withNumbers;
    var withYears := EmitBasicYears(core, tk.yearTokens, cfg);
    out := out + withYears;
  }

  /** `for sym in symbols: if sym: ...` after one separator and number. */
  method EmitNumSymbols(core: string, sep: string, num: string, syms: seq<string>, cfg: Config)
    returns (out: seq<string>)
    ensures out == NumSyms(core, sep, num, syms, cfg)
  {
    out := [];
    for k := 0 to |syms|
      invariant out == NumSyms(core, sep, num, syms[..k], cfg)
    {
      assert syms[..k + 1][..k] == syms[..k];
      var sym := syms[k];
      if sym != "" {
        var c2 := if num != "" then core + sym + sep + num else core + sym;
        if cfg.minLen <= |c2| <= cfg.maxLen {
          out := out + [c2];
        }
      }
    }
    assert syms[..|syms|] == syms;
  }

  /** `for sym in symbols: if sym: ...` after one year token. */
  method EmitYearSymbols(core: string, dt: string, syms: seq<string>, cfg: Config) returns (out: seq<string>)
    ensures out == YearSyms(core, dt, syms, cfg)
  {
    out := [];
    for k := 0 to |syms|
      invariant out == YearSyms(core, dt, syms[..k], cfg)
    {
      assert syms[..k + 1][..k] == syms[..k];
      var sym := syms[k];
      if sym != "" {
        var c2 := core + dt + sym;
        if cfg.minLen <= |c2| <= cfg.maxLen {
          out := out + [c2];
        }
      }
    }
    assert syms[..|syms|] == syms;
  }

  /** `for num in numbers` after one separator (full mode). */
  method EmitFullNumbers(core: string, sep: string, nums: seq<string>, syms: seq<string>, cfg: Config)
    returns (out: seq<string>)
    ensures out == FullNums(core, sep, nums, syms, cfg)
  {
    out := [];
    for j := 0 to |nums|
      invariant out == FullNums(core, sep, nums[..j], syms, cfg)
    {
      FullNumsSnoc(core, sep, nums, j, syms, cfg);
      var num := nums[j];
      var c := if num != "" then core + sep + num else core;
      assert c == Attach(core, sep, num);
      ghost var before := out;
      if cfg.minLen <= |c| <= cfg.maxLen {
        out := out + [c];
      }
      assert out == before + Keep(c, cfg);
      var withSymbols := EmitNumSymbols(core, sep, num, syms, cfg);
      out := out + withSymbols;
    }
    assert nums[..|nums|] == nums;
  }

  /** `for sep in separators: for num in numbers` (full mode). */
  method EmitFullSeparators(core: string, seps: seq<string>, nums: seq<string>, syms: seq<string>, cfg: Config)
    returns (out: seq<string>)
    ensures out == FullSeps(core, seps, nums, syms, cfg)
  {
    out := [];
    for i := 0 to |seps|
      invariant out == FullSeps(core, seps[..i], nums, syms, cfg)
    {
      assert seps[..i + 1][..i] == seps[..i];
      var withNumbers := EmitFullNumbers(core, seps[i], nums, syms, cfg);
      out := out + withNumbers;
    }
    assert seps[..|seps|] == seps;
  }

  /** `for dt in year_tokens` (full mode). */
  method EmitFullYears(core: string, dts: seq<string>, syms: seq<string>, cfg: Config) returns (out: seq<string>)
    ensures out == FullYears(core, dts, syms, cfg)
  {
    out := [];
    for k := 0 to |dts|
      invariant out == FullYears(core, dts[..k], syms, cfg)
    {
      assert dts[..k + 1][..k] == dts[..k];
      var c := core + dts[k];
      if cfg.minLen <= |c| <= cfg.maxLen {
        out := out + [c];
      }
      var withSymbols := EmitYearSymbols(core, dts[k], syms, cfg);
      out := out + withSymbols;
    }
    assert dts[..|dts|] == dts;
  }

  /** The full-mode body for one core. */
  method EmitFull(core: string, tk: Tokens, cfg: Config) returns (out: seq<string>)
    ensures out == FullOut(core, tk, cfg)
  {
    out := [];
    if cfg.minLen <= |core| <= cfg.maxLen {
      out := out + [core];
    }
    var withSeparators := EmitFullSeparators(core, tk.separators, tk.numbers, tk.symbols, cfg);
    out := out + withSeparators;
    var withYears := EmitFullYears(core, tk.yearTokens, tk.symbols, cfg);
    out := out + withYears;
  }

  /** `if mode == "basic": ... else: ...` for one core. */
  method EmitCore(core: string, tk: Tokens, cfg: Config) returns (out: seq<string>)
    ensures out == CoreOut(core, tk, cfg)
  {
    if cfg.mode == Basic {
      out := EmitBasic(core, tk, cfg);
    } else {
      out := EmitFull(core, tk, cfg);
    }
  }

  /** `for suf in suffixes: core = f"{pre}{v}{suf}"; ...` */
  method EmitSuffixes(pre: string, v: string, tk: Tokens, cfg: Config) returns (out: seq<string>)
    ensures out == Emit(SuffixCores(pre, v, tk.suffixes), tk, cfg)
  {
    var sufs := tk.suffixes;
    out := [];
    for k := 0 to |sufs|
      invariant out == Emit(SuffixCores(pre, v, sufs[..k]), tk, cfg)
    {
      var core := pre + v + sufs[k];
      var emitted := EmitCore(core, tk, cfg);
      SuffixCoresSnoc(pre, v, sufs, k);
      EmitSnoc(SuffixCores(pre, v, sufs[..k]), core, tk, cfg);
      out := out + emitted;
    }
    assert sufs[..|sufs|] == sufs;
  }

  /** `for pre in prefixes: for suf in suffixes: ...` for one variant. */
  method EmitVariant(v: string, tk: Tokens, cfg: Config) returns (out: seq<string>)
    ensures out == Emit(PrefixCores(v, tk.prefixes, tk.suffixes), tk, cfg)
  {
    var pres := tk.prefixes;
    out := [];
    for j := 0 to |pres|
      invariant out == Emit(PrefixCores(v, pres[..j], tk.suffixes), tk, cfg)
    {
      var emitted := EmitSuffixes(pres[j], v, tk, cfg);
      PrefixCoresSnoc(v, pres, j, tk.suffixes);
      EmitAppend(PrefixCores(v, pres[..j], tk.suffixes), SuffixCores(pres[j], v, tk.suffixes), tk, cfg);
      out := out + emitted;
    }
    assert pres[..|pres|] == pres;
  }

  /** `for v in list(variants): ...` */
  method EmitVariants(order: seq<string>, tk: Tokens, cfg: Config) returns (out: seq<string>)
    ensures out == Emit(VariantCores(order, tk.prefixes, tk.suffixes), tk, cfg)
  {
    out := [];
    for i := 0 to |order|
      invariant out == Emit(VariantCores(order[..i], tk.prefixes, tk.suffixes), tk, cfg)
    {
      var emitted := EmitVariant(order[i], tk, cfg);
      VariantCoresSnoc(order, i, tk.prefixes, tk.suffixes);
      EmitAppend(VariantCores(order[..i], tk.prefixes, tk.suffixes), PrefixCores(order[i], tk.prefixes, tk.suffixes), tk, cfg);
      out := out + emitted;
    }
    assert order[..|order|] == order;
  }

  /** The body of `for base in base_words`: the variant set of one word, listed
      in some order, and everything its variants yield. */
  method ExpandWord(base: string, tk: Tokens, cfg: Config) returns (emitted: seq<string>, order: seq<string>)
    ensures Enumerates(order, Variants(base, cfg.useLeet))
    ensures emitted == Emit(VariantCores(order, tk.prefixes, tk.suffixes), tk, cfg)
  {
    var variants := WordVariants(base, cfg.useLeet);
    order := ListOf(variants);
    emitted := EmitVariants(order, tk, cfg);
  }

  /** `generate_combinations`: the base words are normalised and, for each,
      its variant set is listed in some order (returned as `orders`) and
      expanded. What is yielded is `WordsOut(orders, ...)`, so the lemmas of
      `Combinations` apply to it whatever order the sets are listed in. */
  method GenerateCombinations(baseWords: seq<string>, tk: Tokens, cfg: Config)
    returns (out: seq<string>, orders: seq<seq<string>>)
    ensures ValidOrders(NormalizeBaseWords(baseWords), orders, cfg.useLeet)
    ensures out == WordsOut(orders, tk, cfg)
  {
    var words := NormalizeBaseWords(baseWords);
    out := [];
    orders := [];
    if words == [] {
      return;
    }
    for i := 0 to |words|
      invariant ValidOrders(words[..i], orders, cfg.useLeet)
      invariant out == WordsOut(orders, tk, cfg)
    {
      var emitted, order := ExpandWord(words[i], tk, cfg);
      WordsOutSnoc(orders, order, tk, cfg);
      ValidOrdersSnoc(words, i, orders, order, cfg.useLeet);
      out := out + emitted;
      orders := orders + [order];
    }
    assert words[..|words|] == words;
  }
}
