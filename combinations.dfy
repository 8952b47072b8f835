/** What `generate_combinations` yields, as functions: the base words are
    normalised, each word's variant set is enumerated in some order, and every
    `core = prefix + variant + suffix` is extended by the tails of the mode,
    each candidate kept only when its length lies in `[minLen, maxLen]`.

    Each function below takes one loop of the generator over a token list and
    is written "the list without its last token, then the last one", the
    order in which the loop visits the tokens. */
module Combinations {
  import opened Text
  import opened Seqs
  import Leet

  datatype Mode = Basic | Full

  /** `mode == "basic"` selects basic mode; every other string selects full mode. */
  function ModeOf(mode: string): (r: Mode)
    ensures r == Basic <==> mode == "basic"
  {
    if mode == "basic" then Basic else Full
  }

  /** The token lists; each may hold the empty string. */
  datatype Tokens = Tokens(
    numbers: seq<string>,
    symbols: seq<string>,
    separators: seq<string>,
    prefixes: seq<string>,
    suffixes: seq<string>,
    yearTokens: seq<string>)

  datatype Config = Config(mode: Mode, minLen: int, maxLen: int, useLeet: bool)

  /** `min_len <= len(c) <= max_len` */
  predicate Fits(c: string, cfg: Config) {
    cfg.minLen <= |c| <= cfg.maxLen
  }

  /** What the length filter lets through of one candidate. */
  function Keep(c: string, cfg: Config): seq<string> {
    if Fits(c, cfg) then [c] else []
  }

  /** `f"{core}{sep}{num}" if num else core` */
  function Attach(core: string, sep: string, num: string): string {
    if num != "" then core + sep + num else core
  }

  /** `f"{core}{sym}{sep}{num}" if num else f"{core}{sym}"` */
  function AttachSymbol(core: string, sym: string, sep: string, num: string): string {
    if num != "" then core + sym + sep + num else core + sym
  }

  // ---------------------------------------------------------------- basic mode

  /** `for sep in separators` with a fixed number (basic mode). */
  function BasicSeps(core: string, num: string, seps: seq<string>, cfg: Config): seq<string> {
    if seps == [] then []
    else BasicSeps(core, num, seps[..|seps| - 1], cfg) + Keep(Attach(core, seps[|seps| - 1], num), cfg)
  }

  /** `for num in numbers: for sep in separators` (basic mode). */
  function BasicNums(core: string, nums: seq<string>, seps: seq<string>, cfg: Config): seq<string> {
    if nums == [] then []
    else BasicNums(core, nums[..|nums| - 1], seps, cfg) + BasicSeps(core, nums[|nums| - 1], seps, cfg)
  }

  /** `for dt in year_tokens` (basic mode). */
  function BasicYears(core: string, dts: seq<string>, cfg: Config): seq<string> {
    if dts == [] then []
    else BasicYears(core, dts[..|dts| - 1], cfg) + Keep(core + dts[|dts| - 1], cfg)
  }

  function BasicOut(core: string, tk: Tokens, cfg: Config): seq<string> {
    Keep(core, cfg) + BasicNums(core, tk.numbers, tk.separators, cfg) + BasicYears(core, tk.yearTokens, cfg)
  }

  // ----------------------------------------------------------------- full mode

  /** `for sym in symbols: if sym` after one separator and number (full mode). */
  function NumSyms(core: string, sep: string, num: string, syms: seq<string>, cfg: Config): seq<string> {
    if syms == [] then []
    else NumSyms(core, sep, num, syms[..|syms| - 1], cfg)
         + (if syms[|syms| - 1] != "" then Keep(AttachSymbol(core, syms[|syms| - 1], sep, num), cfg) else [])
  }

  /** `for num in numbers` with a fixed separator (full mode). */
  function FullNums(core: string, sep: string, nums: seq<string>, syms: seq<string>, cfg: Config): seq<string> {
    if nums == [] then []
    else FullNums(core, sep, nums[..|nums| - 1], syms, cfg)
         + Keep(Attach(core, sep, nums[|nums| - 1]), cfg) + NumSyms(core, sep, nums[|nums| - 1], syms, cfg)
  }

  /** One more number appends its plain candidate and its symbol candidates. */
  lemma FullNumsSnoc(core: string, sep: string, nums: seq<string>, j: int, syms: seq<string>, cfg: Config)
    requires 0 <= j < |nums|
    ensures FullNums(core, sep, nums[..j + 1], syms, cfg)
              == FullNums(core, sep, nums[..j], syms, cfg) + Keep(Attach(core, sep, nums[j]), cfg)
                 + NumSyms(core, sep, nums[j], syms, cfg)
  {
    assert nums[..j + 1][..j] == nums[..j];
  }

  /** `for sep in separators: for num in numbers` (full mode). */
  function FullSeps(core: string, seps: seq<string>, nums: seq<string>, syms: seq<string>, cfg: Config): seq<string> {
    if seps == [] then []
    else FullSeps(core, seps[..|seps| - 1], nums, syms, cfg) + FullNums(core, seps[|seps| - 1], nums, syms, cfg)
  }

  /** `for sym in symbols: if sym` after one year token (full mode). */
  function YearSyms(core: string, dt: string, syms: seq<string>, cfg: Config): seq<string> {
    if syms == [] then []
    else YearSyms(core, dt, syms[..|syms| - 1], cfg)
         + (if syms[|syms| - 1] != "" then Keep(core + dt + syms[|syms| - 1], cfg) else [])
  }

  /** `for dt in year_tokens` (full mode). */
  function FullYears(core: string, dts: seq<string>, syms: seq<string>, cfg: Config): seq<string> {
    if dts == [] then []
    else FullYears(core, dts[..|dts| - 1], syms, cfg)
         + Keep(core + dts[|dts| - 1], cfg) + YearSyms(core, dts[|dts| - 1], syms, cfg)
  }

  function FullOut(core: string, tk: Tokens, cfg: Config): seq<string> {
    Keep(core, cfg) + FullSeps(core, tk.separators, tk.numbers, tk.symbols, cfg)
      + FullYears(core, tk.yearTokens, tk.symbols, cfg)
  }

  /** Everything yielded for one core. */
  function CoreOut(core: string, tk: Tokens, cfg: Config): seq<string> {
    if cfg.mode == Basic then BasicOut(core, tk, cfg) else FullOut(core, tk, cfg)
  }

  // ------------------------------------------------- variants, prefixes, suffixes

  /** The cores `pre + v + suf` for `suf in suffixes`, with a fixed prefix and variant. */
  function SuffixCores(pre: string, v: string, sufs: seq<string>): seq<string> {
    if sufs == [] then []
    else SuffixCores(pre, v, sufs[..|sufs| - 1]) + [pre + v + sufs[|sufs| - 1]]
  }

  /** The cores of `for pre in prefixes: for suf in suffixes` for one variant. */
  function PrefixCores(v: string, pres: seq<string>, sufs: seq<string>): seq<string> {
    if pres == [] then []
    else PrefixCores(v, pres[..|pres| - 1], sufs) + SuffixCores(pres[|pres| - 1], v, sufs)
  }

  /** The cores of `for v in list(variants)`, the variants taken in the order `order`. */
  function VariantCores(order: seq<string>, pres: seq<string>, sufs: seq<string>): seq<string> {
    if order == [] then []
    else VariantCores(order[..|order| - 1], pres, sufs) + PrefixCores(order[|order| - 1], pres, sufs)
  }

  /** The cores of `for base in base_words`, word `i` having its variants in the order `orders[i]`. */
  function WordsCores(orders: seq<seq<string>>, pres: seq<string>, sufs: seq<string>): seq<string> {
    if orders == [] then []
    else WordsCores(orders[..|orders| - 1], pres, sufs) + VariantCores(orders[|orders| - 1], pres, sufs)
  }

  /** The lists of `parts`, one after another. */
  function Flatten(parts: seq<seq<string>>): seq<string> {
    if parts == [] then []
    else Flatten(parts[..|parts| - 1]) + parts[|parts| - 1]
  }

  /** What each core yields. */
  function CoreOuts(cores: seq<string>, tk: Tokens, cfg: Config): (r: seq<seq<string>>)
    ensures |r| == |cores|
    ensures forall k :: 0 <= k < |cores| ==> r[k] == CoreOut(cores[k], tk, cfg)
  {
    seq(|cores|, k requires 0 <= k < |cores| => CoreOut(cores[k], tk, cfg))
  }

  /** Everything yielded for the cores, one after another. */
  function Emit(cores: seq<string>, tk: Tokens, cfg: Config): seq<string> {
    Flatten(CoreOuts(cores, tk, cfg))
  }

  /** What `generate_combinations` yields for normalised words whose variant
      sets are visited in the orders `orders`. */
  function WordsOut(orders: seq<seq<string>>, tk: Tokens, cfg: Config): seq<string> {
    Emit(WordsCores(orders, tk.prefixes, tk.suffixes), tk, cfg)
  }

  // -------------------------------------------------------------------- words

  /** `[w.strip() for w in base_words if w.strip()]` */
  function StripAll(bs: seq<string>): (r: seq<string>)
    ensures forall i :: 0 <= i < |r| ==> r[i] != [] && Strip(r[i]) == r[i]
  {
    if bs == [] then []
    else
      StripIdempotent(bs[|bs| - 1]);
      StripAll(bs[..|bs| - 1]) + (if Strip(bs[|bs| - 1]) != [] then [Strip(bs[|bs| - 1])] else [])
  }

  /** `list(dict.fromkeys(w.strip() for w in base_words if w.strip()))` */
  function NormalizeBaseWords(bs: seq<string>): (r: seq<string>)
    ensures NoDup(r)
    ensures forall i :: 0 <= i < |r| ==> r[i] != [] && Strip(r[i]) == r[i]
  {
    Dedup(StripAll(bs))
  }

  /** The leet variants a base word contributes, each with its capitalised form. */
  function LeetForms(lvs: seq<string>): set<string> {
    if lvs == [] then {}
    else LeetForms(lvs[..|lvs| - 1]) + {lvs[|lvs| - 1], Capitalize(lvs[|lvs| - 1])}
  }

  /** The variant set built for a base word (not `case_variants`: no camel form). */
  function Variants(base: string, useLeet: bool): set<string> {
    {base, Lower(base), Upper(base), Capitalize(base)}
      + (if useLeet then LeetForms(Leet.LeetVariants(base, Leet.DefaultLeetMap, Leet.DefaultMaxVariants)) else {})
  }

  /** `order` lists every member of `s` exactly once: what `list(variants)` gives. */
  ghost predicate Enumerates(order: seq<string>, s: set<string>) {
    NoDup(order) && forall x :: x in order <==> x in s
  }

  /** `orders[i]` is an enumeration of the variants of the `i`-th word. */
  ghost predicate ValidOrders(words: seq<string>, orders: seq<seq<string>>, useLeet: bool) {
    |orders| == |words| &&
    forall i :: 0 <= i < |words| ==> Enumerates(orders[i], Variants(words[i], useLeet))
  }

  lemma ValidOrdersSnoc(words: seq<string>, i: int, orders: seq<seq<string>>, order: seq<string>, useLeet: bool)
    requires 0 <= i < |words|
    requires ValidOrders(words[..i], orders, useLeet)
    requires Enumerates(order, Variants(words[i], useLeet))
    ensures ValidOrders(words[..i + 1], orders + [order], useLeet)
  {
    forall j | 0 <= j < i + 1
      ensures Enumerates((orders + [order])[j], Variants(words[..i + 1][j], useLeet))
    {
      if j < i {
        assert (orders + [order])[j] == orders[j] && words[..i + 1][j] == words[..i][j];
      } else {
        assert (orders + [order])[j] == order && words[..i + 1][j] == words[i];
      }
    }
  }

  // ----------------------------------------------------------- normalisation

  lemma {:induction false} StripAllEmptyIff(bs: seq<string>)
    ensures StripAll(bs) == [] <==> forall i :: 0 <= i < |bs| ==> Strip(bs[i]) == []
  {
    if bs != [] {
      var p := bs[..|bs| - 1];
      StripAllEmptyIff(p);
      assert forall i :: 0 <= i < |p| ==> bs[i] == p[i];
    }
  }

  lemma {:induction false} StripAllOfStripped(bs: seq<string>)
    requires forall i :: 0 <= i < |bs| ==> bs[i] != [] && Strip(bs[i]) == bs[i]
    ensures StripAll(bs) == bs
  {
    if bs != [] {
      StripAllOfStripped(bs[..|bs| - 1]);
    }
  }

  /** A word is kept by the comprehension exactly when it is the stripped form
      of some input word and is not empty. */
  lemma {:induction false} StripAllMember(bs: seq<string>, w: string)
    ensures w in StripAll(bs) <==> w != [] && exists i :: 0 <= i < |bs| && Strip(bs[i]) == w
  {
    if bs != [] {
      var p, b := bs[..|bs| - 1], bs[|bs| - 1];
      StripAllMember(p, w);
      StripsToSnoc(p, b, w);
      assert bs == p + [b];
      assert StripAll(bs) == StripAll(p) + (if Strip(b) != [] then [Strip(b)] else []);
    }
  }

  /** Some word of `p + [b]` strips to `w` exactly when some word of `p` does or `b` does. */
  lemma StripsToSnoc(p: seq<string>, b: string, w: string)
    ensures (exists i :: 0 <= i < |p + [b]| && Strip((p + [b])[i]) == w)
            <==> (exists i :: 0 <= i < |p| && Strip(p[i]) == w) || Strip(b) == w
  {
    var q := p + [b];
    if exists i :: 0 <= i < |q| && Strip(q[i]) == w {
      var i :| 0 <= i < |q| && Strip(q[i]) == w;
      if i < |p| {
        assert q[i] == p[i];
      }
    }
    if exists i :: 0 <= i < |p| && Strip(p[i]) == w {
      var i :| 0 <= i < |p| && Strip(p[i]) == w;
      assert q[i] == p[i];
    }
    assert q[|p|] == b;
  }

  /** The words the engine uses are exactly the non-empty stripped forms of the
      base words (in first-occurrence order, by `DedupFirstOccurrenceOrder`). */
  lemma NormalizeMember(bs: seq<string>, w: string)
    ensures w in NormalizeBaseWords(bs) <==> w != [] && exists i :: 0 <= i < |bs| && Strip(bs[i]) == w
  {
    DedupMember(StripAll(bs), w);
    StripAllMember(bs, w);
  }

  /** Normalised words are non-empty and already stripped, no word occurs twice,
      and none are left exactly when every input word is blank. */
  lemma NormalizeShape(bs: seq<string>)
    ensures NoDup(NormalizeBaseWords(bs))
    ensures forall i :: 0 <= i < |NormalizeBaseWords(bs)| ==>
              NormalizeBaseWords(bs)[i] != [] && Strip(NormalizeBaseWords(bs)[i]) == NormalizeBaseWords(bs)[i]
    ensures NormalizeBaseWords(bs) == [] <==> forall i :: 0 <= i < |bs| ==> Strip(bs[i]) == []
  {
    StripAllEmptyIff(bs);
    var s := StripAll(bs);
    if s != [] {
      assert s[0] in Dedup(s);
    }
  }

  /** Normalising twice changes nothing, so base words with repeats or padding
      yield what their stripped, first-occurrence list yields. */
  lemma NormalizeIdempotent(bs: seq<string>)
    ensures NormalizeBaseWords(NormalizeBaseWords(bs)) == NormalizeBaseWords(bs)
  {
    NormalizeShape(bs);
    StripAllOfStripped(NormalizeBaseWords(bs));
    DedupIdempotent(StripAll(bs));
  }

  /** Appending a blank word, or a padded copy of a word already kept, leaves
      the words the engine uses unchanged. */
  lemma NormalizeIgnoresRepeat(bs: seq<string>, b: string)
    requires Strip(b) == [] || Strip(b) in NormalizeBaseWords(bs)
    ensures NormalizeBaseWords(bs + [b]) == NormalizeBaseWords(bs)
  {
    var t := bs + [b];
    assert t[..|t| - 1] == bs && t[|t| - 1] == b;
    if Strip(b) != [] {
      assert StripAll(t) == StripAll(bs) + [Strip(b)];
      DedupMember(StripAll(bs), Strip(b));
      DedupSnoc(StripAll(bs), Strip(b));
    } else {
      assert StripAll(t) == StripAll(bs);
    }
  }

  /** When every base word is blank after stripping, nothing is yielded. */
  lemma BlankWordsNoOutput(bs: seq<string>, orders: seq<seq<string>>, tk: Tokens, cfg: Config)
    requires ValidOrders(NormalizeBaseWords(bs), orders, cfg.useLeet)
    requires forall i :: 0 <= i < |bs| ==> Strip(bs[i]) == []
    ensures WordsOut(orders, tk, cfg) == []
  {
    NormalizeShape(bs);
    assert orders == [];
  }

  // ---------------------------------------------------------------- variants

  lemma LeetFormsSnoc(lvs: seq<string>, k: int)
    requires 0 <= k < |lvs|
    ensures LeetForms(lvs[..k + 1]) == LeetForms(lvs[..k]) + {lvs[k], Capitalize(lvs[k])}
  {
    assert lvs[..k + 1][..k] == lvs[..k];
  }

  lemma LeetFormsMember(lvs: seq<string>, x: string)
    ensures x in LeetForms(lvs) <==> exists k :: 0 <= k < |lvs| && (x == lvs[k] || x == Capitalize(lvs[k]))
  {
    if x in LeetForms(lvs) {
      LeetFormsSound(lvs, x);
    }
    if exists k :: 0 <= k < |lvs| && (x == lvs[k] || x == Capitalize(lvs[k])) {
      var k :| 0 <= k < |lvs| && (x == lvs[k] || x == Capitalize(lvs[k]));
      LeetFormsComplete(lvs, k);
    }
  }

  lemma {:induction false} LeetFormsSound(lvs: seq<string>, x: string)
    requires x in LeetForms(lvs)
    ensures exists k :: 0 <= k < |lvs| && (x == lvs[k] || x == Capitalize(lvs[k]))
  {
    var p, l := lvs[..|lvs| - 1], lvs[|lvs| - 1];
    if x in LeetForms(p) {
      LeetFormsSound(p, x);
      var k :| 0 <= k < |p| && (x == p[k] || x == Capitalize(p[k]));
      assert lvs[k] == p[k];
    } else {
      assert x == l || x == Capitalize(l);
      assert lvs[|p|] == l;
    }
  }

  lemma {:induction false} LeetFormsComplete(lvs: seq<string>, k: int)
    requires 0 <= k < |lvs|
    ensures lvs[k] in LeetForms(lvs) && Capitalize(lvs[k]) in LeetForms(lvs)
  {
    var p := lvs[..|lvs| - 1];
    if k < |p| {
      LeetFormsComplete(p, k);
      assert lvs[k] == p[k];
    }
  }

  /** Every variant of a base word has the word's length: the case forms keep
      it and the leet expander substitutes one character for one. */
  lemma VariantLength(base: string, useLeet: bool, v: string)
    requires v in Variants(base, useLeet)
    ensures |v| == |base|
  {
    if useLeet && v !in {base, Lower(base), Upper(base), Capitalize(base)} {
      var lvs := Leet.LeetVariants(base, Leet.DefaultLeetMap, Leet.DefaultMaxVariants);
      LeetFormsMember(lvs, v);
      var k :| 0 <= k < |lvs| && (v == lvs[k] || v == Capitalize(lvs[k]));
      Leet.LeetVariantsShape(base, Leet.DefaultLeetMap, Leet.DefaultMaxVariants, k);
    }
  }

  /** With leet on, `word.lower()` and its capitalised form are variants through
      the expander too, and so is every other string it yields. */
  lemma LeetVariantsIncluded(base: string, k: int)
    requires 0 <= k < |Leet.LeetVariants(base, Leet.DefaultLeetMap, Leet.DefaultMaxVariants)|
    ensures Leet.LeetVariants(base, Leet.DefaultLeetMap, Leet.DefaultMaxVariants)[k] in Variants(base, true)
    ensures Capitalize(Leet.LeetVariants(base, Leet.DefaultLeetMap, Leet.DefaultMaxVariants)[k]) in Variants(base, true)
  {
    var lvs := Leet.LeetVariants(base, Leet.DefaultLeetMap, Leet.DefaultMaxVariants);
    LeetFormsMember(lvs, lvs[k]);
    LeetFormsMember(lvs, Capitalize(lvs[k]));
  }

  // ------------------------------------------------------ what a core yields

  /** The tails basic mode puts after a core: none, a separator and a non-empty
      number, or a year token. No symbol is ever inserted. */
  predicate BasicTail(core: string, x: string, tk: Tokens) {
    x == core
    || (exists sep, num :: sep in tk.separators && num in tk.numbers && num != "" && x == core + sep + num)
    || (exists dt :: dt in tk.yearTokens && x == core + dt)
  }

  /** Full mode adds, for every non-empty symbol, `sym + sep + num` for a
      non-empty number, `sym` alone (reached through an empty number under some
      separator), and `dt + sym` after a year token. */
  predicate FullTail(core: string, x: string, tk: Tokens) {
    BasicTail(core, x, tk)
    || (exists sym, sep, num :: sym in tk.symbols && sym != "" && sep in tk.separators &&
          num in tk.numbers && num != "" && x == core + sym + sep + num)
    || ("" in tk.numbers && tk.separators != [] &&
          exists sym :: sym in tk.symbols && sym != "" && x == core + sym)
    || (exists dt, sym :: dt in tk.yearTokens && sym in tk.symbols && sym != "" && x == core + dt + sym)
  }

  predicate TailForm(core: string, x: string, tk: Tokens, mode: Mode) {
    if mode == Basic then BasicTail(core, x, tk) else FullTail(core, x, tk)
  }

  lemma {:induction false} BasicSepsMember(core: string, num: string, seps: seq<string>, cfg: Config, x: string)
    ensures x in BasicSeps(core, num, seps, cfg) <==>
              Fits(x, cfg) && exists sep :: sep in seps && x == Attach(core, sep, num)
  {
    if seps != [] {
      var p, l := seps[..|seps| - 1], seps[|seps| - 1];
      BasicSepsMember(core, num, p, cfg, x);
      InitLast(seps);
      if exists sep :: sep in seps && x == Attach(core, sep, num) {
        var sep :| sep in seps && x == Attach(core, sep, num);
        if sep != l {
          assert sep in p;
        }
      }
    }
  }

  lemma {:induction false} BasicNumsMember(core: string, nums: seq<string>, seps: seq<string>, cfg: Config, x: string)
    ensures x in BasicNums(core, nums, seps, cfg) <==>
              Fits(x, cfg) && exists num, sep :: num in nums && sep in seps && x == Attach(core, sep, num)
  {
    if nums != [] {
      var p, l := nums[..|nums| - 1], nums[|nums| - 1];
      BasicNumsMember(core, p, seps, cfg, x);
      BasicSepsMember(core, l, seps, cfg, x);
      InitLast(nums);
      if exists num, sep :: num in nums && sep in seps && x == Attach(core, sep, num) {
        var num, sep :| num in nums && sep in seps && x == Attach(core, sep, num);
        if num != l {
          assert num in p;
        }
      }
    }
  }

  lemma {:induction false} BasicYearsMember(core: string, dts: seq<string>, cfg: Config, x: string)
    ensures x in BasicYears(core, dts, cfg) <==> Fits(x, cfg) && exists dt :: dt in dts && x == core + dt
  {
    if dts != [] {
      var p, l := dts[..|dts| - 1], dts[|dts| - 1];
      BasicYearsMember(core, p, cfg, x);
      InitLast(dts);
      if exists dt :: dt in dts && x == core + dt {
        var dt :| dt in dts && x == core + dt;
        if dt != l {
          assert dt in p;
        }
      }
    }
  }

  /** Basic mode yields exactly the length-fitting core, core with separator
      and non-empty number, and core with year token. */
  lemma BasicOutMember(core: string, tk: Tokens, cfg: Config, x: string)
    ensures x in BasicOut(core, tk, cfg) <==> Fits(x, cfg) && BasicTail(core, x, tk)
  {
    BasicNumsMember(core, tk.numbers, tk.separators, cfg, x);
    BasicYearsMember(core, tk.yearTokens, cfg, x);
    AttachForms(core, tk.separators, tk.numbers, x);
    if x in BasicNums(core, tk.numbers, tk.separators, cfg) {
      var num, sep :| num in tk.numbers && sep in tk.separators && x == Attach(core, sep, num);
    }
  }

  lemma {:induction false} NumSymsMember(core: string, sep: string, num: string, syms: seq<string>, cfg: Config, x: string)
    ensures x in NumSyms(core, sep, num, syms, cfg) <==>
              Fits(x, cfg) && exists sym :: sym in syms && sym != "" && x == AttachSymbol(core, sym, sep, num)
  {
    if syms != [] {
      var p, l := syms[..|syms| - 1], syms[|syms| - 1];
      NumSymsMember(core, sep, num, p, cfg, x);
      InitLast(syms);
      if exists sym :: sym in syms && sym != "" && x == AttachSymbol(core, sym, sep, num) {
        var sym :| sym in syms && sym != "" && x == AttachSymbol(core, sym, sep, num);
        if sym != l {
          assert sym in p;
        }
      }
    }
  }

  lemma {:induction false} FullNumsMember(core: string, sep: string, nums: seq<string>, syms: seq<string>, cfg: Config, x: string)
    ensures x in FullNums(core, sep, nums, syms, cfg) <==>
              Fits(x, cfg) &&
              ((exists num :: num in nums && x == Attach(core, sep, num)) ||
               (exists num, sym :: num in nums && sym in syms && sym != "" && x == AttachSymbol(core, sym, sep, num)))
  {
    if nums != [] {
      var p, l := nums[..|nums| - 1], nums[|nums| - 1];
      FullNumsMember(core, sep, p, syms, cfg, x);
      NumSymsMember(core, sep, l, syms, cfg, x);
      InitLast(nums);
      if exists num :: num in nums && x == Attach(core, sep, num) {
        var num :| num in nums && x == Attach(core, sep, num);
        if num != l {
          assert num in p;
        }
      }
      if exists num, sym :: num in nums && sym in syms && sym != "" && x == AttachSymbol(core, sym, sep, num) {
        var num, sym :| num in nums && sym in syms && sym != "" && x == AttachSymbol(core, sym, sep, num);
        if num != l {
          assert num in p;
        }
      }
    }
  }

  lemma {:induction false} FullSepsMember(core: string, seps: seq<string>, nums: seq<string>, syms: seq<string>, cfg: Config, x: string)
    ensures x in FullSeps(core, seps, nums, syms, cfg) <==>
              Fits(x, cfg) &&
              ((exists sep, num :: sep in seps && num in nums && x == Attach(core, sep, num)) ||
               (exists sep, num, sym :: sep in seps && num in nums && sym in syms && sym != "" &&
                  x == AttachSymbol(core, sym, sep, num)))
  {
    if seps != [] {
      var p, l := seps[..|seps| - 1], seps[|seps| - 1];
      FullSepsMember(core, p, nums, syms, cfg, x);
      FullNumsMember(core, l, nums, syms, cfg, x);
      InitLast(seps);
      if exists sep, num :: sep in seps && num in nums && x == Attach(core, sep, num) {
        var sep, num :| sep in seps && num in nums && x == Attach(core, sep, num);
        if sep != l {
          assert sep in p;
        }
      }
      if exists sep, num, sym :: sep in seps && num in nums && sym in syms && sym != "" &&
           x == AttachSymbol(core, sym, sep, num) {
        var sep, num, sym :| sep in seps && num in nums && sym in syms && sym != "" &&
          x == AttachSymbol(core, sym, sep, num);
        if sep != l {
          assert sep in p;
        }
      }
    }
  }

  lemma {:induction false} YearSymsMember(core: string, dt: string, syms: seq<string>, cfg: Config, x: string)
    ensures x in YearSyms(core, dt, syms, cfg) <==>
              Fits(x, cfg) && exists sym :: sym in syms && sym != "" && x == core + dt + sym
  {
    if syms != [] {
      var p, l := syms[..|syms| - 1], syms[|syms| - 1];
      YearSymsMember(core, dt, p, cfg, x);
      InitLast(syms);
      if exists sym :: sym in syms && sym != "" && x == core + dt + sym {
        var sym :| sym in syms && sym != "" && x == core + dt + sym;
        if sym != l {
          assert sym in p;
        }
      }
    }
  }

  lemma {:induction false} FullYearsMember(core: string, dts: seq<string>, syms: seq<string>, cfg: Config, x: string)
    ensures x in FullYears(core, dts, syms, cfg) <==>
              Fits(x, cfg) &&
              ((exists dt :: dt in dts && x == core + dt) ||
               (exists dt, sym :: dt in dts && sym in syms && sym != "" && x == core + dt + sym))
  {
    if dts != [] {
      var p, l := dts[..|dts| - 1], dts[|dts| - 1];
      FullYearsMember(core, p, syms, cfg, x);
      YearSymsMember(core, l, syms, cfg, x);
      InitLast(dts);
      if exists dt :: dt in dts && x == core + dt {
        var dt :| dt in dts && x == core + dt;
        if dt != l {
          assert dt in p;
        }
      }
      if exists dt, sym :: dt in dts && sym in syms && sym != "" && x == core + dt + sym {
        var dt, sym :| dt in dts && sym in syms && sym != "" && x == core + dt + sym;
        if dt != l {
          assert dt in p;
        }
      }
    }
  }

  /** The plain tails under every separator and number, by their shape. */
  lemma AttachForms(core: string, seps: seq<string>, nums: seq<string>, x: string)
    ensures (exists sep, num :: sep in seps && num in nums && x == Attach(core, sep, num)) <==>
              (seps != [] && "" in nums && x == core) ||
              (exists sep, num :: sep in seps && num in nums && num != "" && x == core + sep + num)
  {
    if exists sep, num :: sep in seps && num in nums && x == Attach(core, sep, num) {
      var sep, num :| sep in seps && num in nums && x == Attach(core, sep, num);
    }
    if exists sep, num :: sep in seps && num in nums && num != "" && x == core + sep + num {
      var sep, num :| sep in seps && num in nums && num != "" && x == core + sep + num;
      assert x == Attach(core, sep, num);
    }
    if seps != [] && "" in nums && x == core {
      assert x == Attach(core, seps[0], "");
    }
  }

  /** The symbol tails under every separator and number, by their shape. */
  lemma AttachSymbolForms(core: string, seps: seq<string>, nums: seq<string>, syms: seq<string>, x: string)
    ensures (exists sep, num, sym :: sep in seps && num in nums && sym in syms && sym != "" &&
               x == AttachSymbol(core, sym, sep, num)) <==>
              (exists sym, sep, num :: sym in syms && sym != "" && sep in seps && num in nums && num != "" &&
                 x == core + sym + sep + num) ||
              (seps != [] && "" in nums && exists sym :: sym in syms && sym != "" && x == core + sym)
  {
    if exists sep, num, sym :: sep in seps && num in nums && sym in syms && sym != "" &&
         x == AttachSymbol(core, sym, sep, num) {
      var sep, num, sym :| sep in seps && num in nums && sym in syms && sym != "" &&
         x == AttachSymbol(core, sym, sep, num);
    }
    if exists sym, sep, num :: sym in syms && sym != "" && sep in seps && num in nums && num != "" &&
         x == core + sym + sep + num {
      var sym, sep, num :| sym in syms && sym != "" && sep in seps && num in nums && num != "" &&
         x == core + sym + sep + num;
      assert x == AttachSymbol(core, sym, sep, num);
    }
    if seps != [] && "" in nums && exists sym :: sym in syms && sym != "" && x == core + sym {
      var sym :| sym in syms && sym != "" && x == core + sym;
      assert x == AttachSymbol(core, sym, seps[0], "");
    }
  }

  /** Full mode yields exactly the length-fitting strings of the full tail forms. */
  lemma FullOutMember(core: string, tk: Tokens, cfg: Config, x: string)
    ensures x in FullOut(core, tk, cfg) <==> Fits(x, cfg) && FullTail(core, x, tk)
  {
    FullSepsMember(core, tk.separators, tk.numbers, tk.symbols, cfg, x);
    FullYearsMember(core, tk.yearTokens, tk.symbols, cfg, x);
    AttachForms(core, tk.separators, tk.numbers, x);
    AttachSymbolForms(core, tk.separators, tk.numbers, tk.symbols, x);
  }

  lemma CoreOutMember(core: string, tk: Tokens, cfg: Config, x: string)
    ensures x in CoreOut(core, tk, cfg) <==> Fits(x, cfg) && TailForm(core, x, tk, cfg.mode)
  {
    if cfg.mode == Basic {
      BasicOutMember(core, tk, cfg, x);
    } else {
      FullOutMember(core, tk, cfg, x);
    }
  }

  // ------------------------------------------- what the whole generator yields

  lemma {:induction false} FlattenMember(parts: seq<seq<string>>, x: string)
    ensures x in Flatten(parts) <==> exists k :: 0 <= k < |parts| && x in parts[k]
  {
    if parts != [] {
      var p := parts[..|parts| - 1];
      FlattenMember(p, x);
      assert forall k :: 0 <= k < |p| ==> parts[k] == p[k];
    }
  }

  lemma EmitMember(cores: seq<string>, tk: Tokens, cfg: Config, x: string)
    ensures x in Emit(cores, tk, cfg) <==> exists c :: c in cores && x in CoreOut(c, tk, cfg)
  {
    var outs := CoreOuts(cores, tk, cfg);
    FlattenMember(outs, x);
    if exists k :: 0 <= k < |outs| && x in outs[k] {
      var k :| 0 <= k < |outs| && x in outs[k];
      assert cores[k] in cores;
    }
    if exists c :: c in cores && x in CoreOut(c, tk, cfg) {
      var c :| c in cores && x in CoreOut(c, tk, cfg);
      var k :| 0 <= k < |cores| && cores[k] == c;
      assert x in outs[k];
    }
  }

  lemma {:induction false} FlattenAppend(a: seq<seq<string>>, b: seq<seq<string>>)
    ensures Flatten(a + b) == Flatten(a) + Flatten(b)
  {
    if b == [] {
      assert a + b == a;
    } else {
      var b', l := b[..|b| - 1], b[|b| - 1];
      var ab := a + b;
      assert ab[..|ab| - 1] == a + b' && ab[|ab| - 1] == l;
      assert Flatten(ab) == Flatten(a + b') + l;
      assert Flatten(b) == Flatten(b') + l;
      FlattenAppend(a, b');
    }
  }

  /** The cores in two runs yield what each run yields, one after the other. */
  lemma EmitAppend(a: seq<string>, b: seq<string>, tk: Tokens, cfg: Config)
    ensures Emit(a + b, tk, cfg) == Emit(a, tk, cfg) + Emit(b, tk, cfg)
  {
    assert CoreOuts(a + b, tk, cfg) == CoreOuts(a, tk, cfg) + CoreOuts(b, tk, cfg);
    FlattenAppend(CoreOuts(a, tk, cfg), CoreOuts(b, tk, cfg));
  }

  /** One more suffix, prefix or variant appends its cores. */
  lemma SuffixCoresSnoc(pre: string, v: string, sufs: seq<string>, k: int)
    requires 0 <= k < |sufs|
    ensures SuffixCores(pre, v, sufs[..k + 1]) == SuffixCores(pre, v, sufs[..k]) + [pre + v + sufs[k]]
  {
    assert sufs[..k + 1][..k] == sufs[..k];
  }

  lemma PrefixCoresSnoc(v: string, pres: seq<string>, j: int, sufs: seq<string>)
    requires 0 <= j < |pres|
    ensures PrefixCores(v, pres[..j + 1], sufs) == PrefixCores(v, pres[..j], sufs) + SuffixCores(pres[j], v, sufs)
  {
    assert pres[..j + 1][..j] == pres[..j];
  }

  lemma VariantCoresSnoc(order: seq<string>, i: int, pres: seq<string>, sufs: seq<string>)
    requires 0 <= i < |order|
    ensures VariantCores(order[..i + 1], pres, sufs) == VariantCores(order[..i], pres, sufs) + PrefixCores(order[i], pres, sufs)
  {
    assert order[..i + 1][..i] == order[..i];
  }

  /** One more word appends what its variants yield. */
  lemma WordsOutSnoc(orders: seq<seq<string>>, order: seq<string>, tk: Tokens, cfg: Config)
    ensures WordsOut(orders + [order], tk, cfg)
              == WordsOut(orders, tk, cfg) + Emit(VariantCores(order, tk.prefixes, tk.suffixes), tk, cfg)
  {
    assert (orders + [order])[..|orders|] == orders;
    EmitAppend(WordsCores(orders, tk.prefixes, tk.suffixes), VariantCores(order, tk.prefixes, tk.suffixes), tk, cfg);
  }

  /** One more core appends what it yields. */
  lemma EmitSnoc(cores: seq<string>, c: string, tk: Tokens, cfg: Config)
    ensures Emit(cores + [c], tk, cfg) == Emit(cores, tk, cfg) + CoreOut(c, tk, cfg)
  {
    assert CoreOuts(cores + [c], tk, cfg)[..|cores|] == CoreOuts(cores, tk, cfg);
  }

  lemma {:induction false} SuffixCoresMember(pre: string, v: string, sufs: seq<string>, c: string)
    ensures c in SuffixCores(pre, v, sufs) <==> exists suf :: suf in sufs && c == pre + v + suf
  {
    if sufs != [] {
      var p, l := sufs[..|sufs| - 1], sufs[|sufs| - 1];
      SuffixCoresMember(pre, v, p, c);
      InitLast(sufs);
      if exists suf :: suf in sufs && c == pre + v + suf {
        var suf :| suf in sufs && c == pre + v + suf;
        if suf != l {
          assert suf in p;
        }
      }
    }
  }

  lemma {:induction false} PrefixCoresMember(v: string, pres: seq<string>, sufs: seq<string>, c: string)
    ensures c in PrefixCores(v, pres, sufs) <==>
              exists pre, suf :: pre in pres && suf in sufs && c == pre + v + suf
  {
    if pres != [] {
      var p, l := pres[..|pres| - 1], pres[|pres| - 1];
      PrefixCoresMember(v, p, sufs, c);
      SuffixCoresMember(l, v, sufs, c);
      InitLast(pres);
      if exists pre, suf :: pre in pres && suf in sufs && c == pre + v + suf {
        var pre, suf :| pre in pres && suf in sufs && c == pre + v + suf;
        if pre != l {
          assert pre in p;
        }
      }
    }
  }

  lemma {:induction false} VariantCoresMember(order: seq<string>, pres: seq<string>, sufs: seq<string>, c: string)
    ensures c in VariantCores(order, pres, sufs) <==>
              exists v, pre, suf :: v in order && pre in pres && suf in sufs && c == pre + v + suf
  {
    if order != [] {
      var p, l := order[..|order| - 1], order[|order| - 1];
      VariantCoresMember(p, pres, sufs, c);
      PrefixCoresMember(l, pres, sufs, c);
      InitLast(order);
      if exists v, pre, suf :: v in order && pre in pres && suf in sufs && c == pre + v + suf {
        var v, pre, suf :| v in order && pre in pres && suf in sufs && c == pre + v + suf;
        if v != l {
          assert v in p;
        }
      }
    }
  }

  lemma {:induction false} WordsCoresMember(orders: seq<seq<string>>, pres: seq<string>, sufs: seq<string>, c: string)
    ensures c in WordsCores(orders, pres, sufs) <==>
              exists i, v, pre, suf :: 0 <= i < |orders| && v in orders[i] && pre in pres && suf in sufs &&
                c == pre + v + suf
  {
    if c in WordsCores(orders, pres, sufs) {
      WordsCoresSound(orders, pres, sufs, c);
    }
    if exists i, v, pre, suf :: 0 <= i < |orders| && v in orders[i] && pre in pres && suf in sufs &&
         c == pre + v + suf {
      var i, v, pre, suf :| 0 <= i < |orders| && v in orders[i] && pre in pres && suf in sufs &&
        c == pre + v + suf;
      WordsCoresComplete(orders, pres, sufs, i, v, pre, suf);
    }
  }

  lemma {:induction false} WordsCoresSound(orders: seq<seq<string>>, pres: seq<string>, sufs: seq<string>, c: string)
    requires c in WordsCores(orders, pres, sufs)
    ensures exists i, v, pre, suf :: 0 <= i < |orders| && v in orders[i] && pre in pres && suf in sufs &&
              c == pre + v + suf
  {
    assert orders != [];
    var p, l := orders[..|orders| - 1], orders[|orders| - 1];
    assert WordsCores(orders, pres, sufs) == WordsCores(p, pres, sufs) + VariantCores(l, pres, sufs);
    if c in WordsCores(p, pres, sufs) {
      WordsCoresSound(p, pres, sufs, c);
      var i, v, pre, suf :| 0 <= i < |p| && v in p[i] && pre in pres && suf in sufs && c == pre + v + suf;
      assert 0 <= i < |orders| && v in orders[i] && pre in pres && suf in sufs && c == pre + v + suf;
    } else {
      VariantCoresMember(l, pres, sufs, c);
      var v, pre, suf :| v in l && pre in pres && suf in sufs && c == pre + v + suf;
      assert 0 <= |p| < |orders| && v in orders[|p|] && pre in pres && suf in sufs && c == pre + v + suf;
    }
  }

  lemma {:induction false} WordsCoresComplete(orders: seq<seq<string>>, pres: seq<string>, sufs: seq<string>,
                                              i: int, v: string, pre: string, suf: string)
    requires 0 <= i < |orders| && v in orders[i] && pre in pres && suf in sufs
    ensures pre + v + suf in WordsCores(orders, pres, sufs)
  {
    var p, l := orders[..|orders| - 1], orders[|orders| - 1];
    if i < |p| {
      assert v in p[i];
      WordsCoresComplete(p, pres, sufs, i, v, pre, suf);
    } else {
      VariantCoresMember(l, pres, sufs, pre + v + suf);
    }
  }

  lemma WordsOutMember(orders: seq<seq<string>>, tk: Tokens, cfg: Config, x: string)
    ensures x in WordsOut(orders, tk, cfg) <==>
              exists i, v, pre, suf :: 0 <= i < |orders| && v in orders[i] && pre in tk.prefixes &&
                suf in tk.suffixes && x in CoreOut(pre + v + suf, tk, cfg)
  {
    var cores := WordsCores(orders, tk.prefixes, tk.suffixes);
    EmitMember(cores, tk, cfg, x);
    if x in WordsOut(orders, tk, cfg) {
      var c :| c in cores && x in CoreOut(c, tk, cfg);
      WordsCoresMember(orders, tk.prefixes, tk.suffixes, c);
    }
    if exists i, v, pre, suf :: 0 <= i < |orders| && v in orders[i] && pre in tk.prefixes &&
         suf in tk.suffixes && x in CoreOut(pre + v + suf, tk, cfg) {
      var i, v, pre, suf :| 0 <= i < |orders| && v in orders[i] && pre in tk.prefixes &&
        suf in tk.suffixes && x in CoreOut(pre + v + suf, tk, cfg);
      WordsCoresMember(orders, tk.prefixes, tk.suffixes, pre + v + suf);
    }
  }

  /** Every candidate is `prefix + variant + suffix` of some base word, followed
      by a tail of the mode, and has a length in `[minLen, maxLen]`; and every
      such string is yielded, whatever order the variant sets are visited in. */
  lemma GenerateMember(words: seq<string>, orders: seq<seq<string>>, tk: Tokens, cfg: Config, x: string)
    requires ValidOrders(words, orders, cfg.useLeet)
    ensures x in WordsOut(orders, tk, cfg) <==>
              Fits(x, cfg) &&
              exists i, v, pre, suf :: 0 <= i < |words| && v in Variants(words[i], cfg.useLeet) &&
                pre in tk.prefixes && suf in tk.suffixes && TailForm(pre + v + suf, x, tk, cfg.mode)
  {
    WordsOutMember(orders, tk, cfg, x);
    if x in WordsOut(orders, tk, cfg) {
      var i, v, pre, suf :| 0 <= i < |orders| && v in orders[i] && pre in tk.prefixes &&
        suf in tk.suffixes && x in CoreOut(pre + v + suf, tk, cfg);
      CoreOutMember(pre + v + suf, tk, cfg, x);
    }
    if Fits(x, cfg) &&
       exists i, v, pre, suf :: 0 <= i < |words| && v in Variants(words[i], cfg.useLeet) &&
         pre in tk.prefixes && suf in tk.suffixes && TailForm(pre + v + suf, x, tk, cfg.mode)
    {
      var i, v, pre, suf :| 0 <= i < |words| && v in Variants(words[i], cfg.useLeet) &&
        pre in tk.prefixes && suf in tk.suffixes && TailForm(pre + v + suf, x, tk, cfg.mode);
      CoreOutMember(pre + v + suf, tk, cfg, x);
      assert v in orders[i];
    }
  }

  /** Every yielded string has a length in `[minLen, maxLen]`, in both modes. */
  lemma OutputFits(orders: seq<seq<string>>, tk: Tokens, cfg: Config, k: int)
    requires 0 <= k < |WordsOut(orders, tk, cfg)|
    ensures cfg.minLen <= |WordsOut(orders, tk, cfg)[k]| <= cfg.maxLen
  {
    var x := WordsOut(orders, tk, cfg)[k];
    WordsOutMember(orders, tk, cfg, x);
    var i, v, pre, suf :| 0 <= i < |orders| && v in orders[i] && pre in tk.prefixes &&
      suf in tk.suffixes && x in CoreOut(pre + v + suf, tk, cfg);
    CoreOutMember(pre + v + suf, tk, cfg, x);
  }

  /** With `minLen > maxLen` nothing is yielded. */
  lemma EmptyWhenBoundsCross(orders: seq<seq<string>>, tk: Tokens, cfg: Config)
    requires cfg.minLen > cfg.maxLen
    ensures WordsOut(orders, tk, cfg) == []
  {
    if WordsOut(orders, tk, cfg) != [] {
      OutputFits(orders, tk, cfg, 0);
    }
  }

  /** The engine does yield repeats: with the number `""` the bare core comes
      out once for the core itself and once more per separator. */
  lemma RepeatedCore(core: string, cfg: Config)
    requires cfg.mode == Basic && Fits(core, cfg)
    ensures CoreOut(core, Tokens([""], [], ["", "-"], [""], [""], []), cfg) == [core, core, core]
  {
    var tk := Tokens([""], [], ["", "-"], [""], [""], []);
    assert BasicSeps(core, "", ["", "-"], cfg) == [core, core] by {
      assert ["", "-"][..1] == [""];
      assert BasicSeps(core, "", [""], cfg) == [core] by {
        assert [""][..0] == [];
      }
    }
    assert BasicNums(core, [""], ["", "-"], cfg) == [core, core] by {
      assert [""][..0] == [];
    }
  }
}
