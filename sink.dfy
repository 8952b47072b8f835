/** The output side: `write_output`, which writes lines one by one, skips
    repeats when asked and stops at a limit, and the buffered path of `main`,
    which collects candidates first, then deduplicates, shuffles and truncates.
    A file is modelled by the sequence of lines written to it. */
module Sink {
  import opened Seqs

  /** The lines `write_output` considers, read from the front: every line, or
      with `unique` only those not seen before. */
  function Considered(lines: seq<string>, unique: bool): seq<string>
    decreases |lines|
  {
    if lines == [] then []
    else
      var prior := Considered(lines[..|lines| - 1], unique);
      var line := lines[|lines| - 1];
      if unique && line in prior then prior else prior + [line]
  }

  /** The `seen` loop keeps first occurrences: it is `Dedup`, and without
      `unique` it keeps every line. */
  lemma {:induction false} ConsideredIsDedup(lines: seq<string>, unique: bool)
    ensures Considered(lines, unique) == if unique then Dedup(lines) else lines
    decreases |lines|
  {
    if lines != [] {
      var p := lines[..|lines| - 1];
      ConsideredIsDedup(p, unique);
      InitLast(lines);
      if unique {
        DedupSnoc(p, lines[|lines| - 1]);
      }
    }
  }

  /** How many lines `write_output` writes at most: `if limit and written >= limit: break`
      runs after each write, so a negative limit, being truthy, stops after the
      first line; 0 means no limit. */
  function WriteCap(limit: int): (r: int)
    requires limit != 0
    ensures r >= 1
    ensures limit > 0 ==> r == limit
    ensures limit < 0 ==> r == 1
  {
    Max(1, limit)
  }

  /** The lines `write_output(lines, path, unique, limit, quiet)` writes. */
  function Written(lines: seq<string>, unique: bool, limit: int): seq<string> {
    var c := Considered(lines, unique);
    if limit == 0 then c else c[..Min(|c|, WriteCap(limit))]
  }

  /** `write_output`: returns the file contents and the count it reports. */
  method WriteOutput(lines: seq<string>, unique: bool, limit: int) returns (file: seq<string>, written: int)
    ensures file == Written(lines, unique, limit)
    ensures written == |file|
  {
    var seen: set<string> := {};
    written := 0;
    file := [];
    for i := 0 to |lines|
      invariant file == Considered(lines[..i], unique)
      invariant written == |file|
      invariant unique ==> seen == Lines(file)
      invariant limit != 0 ==> written < WriteCap(limit)
    {
      var line := lines[i];
      if unique {
        if line in seen {
          WriteSkip(lines, i, file);
          continue;
        }
        seen := seen + {line};
      }
      WriteKeep(lines, i, unique, file);
      file := file + [line];
      written := written + 1;
      if limit != 0 && written >= limit {
        WrittenAtCap(lines, i, unique, limit);
        return;
      }
    }
    WrittenWhole(lines, unique, limit);
  }

  /** The distinct lines of a file: what `seen` holds. */
  function Lines(file: seq<string>): set<string> {
    set x | x in file
  }

  /** A line already seen is skipped. */
  lemma WriteSkip(lines: seq<string>, i: int, file: seq<string>)
    requires 0 <= i < |lines| && file == Considered(lines[..i], true)
    requires lines[i] in Lines(file)
    ensures Considered(lines[..i + 1], true) == file
  {
    ConsideredStep(lines, i, true);
  }

  /** A line not yet seen (or any line without `unique`) is written and joins `seen`. */
  lemma WriteKeep(lines: seq<string>, i: int, unique: bool, file: seq<string>)
    requires 0 <= i < |lines| && file == Considered(lines[..i], unique)
    requires unique ==> lines[i] !in Lines(file)
    ensures Considered(lines[..i + 1], unique) == file + [lines[i]]
    ensures Lines(file + [lines[i]]) == Lines(file) + {lines[i]}
  {
    ConsideredStep(lines, i, unique);
  }

  /** A loop that ran to the end without reaching the cap wrote everything
      considered. */
  lemma WrittenWhole(lines: seq<string>, unique: bool, limit: int)
    requires limit != 0 ==> |Considered(lines[..|lines|], unique)| < WriteCap(limit)
    ensures Considered(lines[..|lines|], unique) == Written(lines, unique, limit)
  {
    assert lines[..|lines|] == lines;
  }

  /** One more input line is considered unless it repeats a considered one. */
  lemma ConsideredStep(lines: seq<string>, i: int, unique: bool)
    requires 0 <= i < |lines|
    ensures Considered(lines[..i + 1], unique)
            == if unique && lines[i] in Considered(lines[..i], unique) then Considered(lines[..i], unique)
               else Considered(lines[..i], unique) + [lines[i]]
  {
    assert lines[..i + 1][..i] == lines[..i];
  }

  /** Once the cap is reached after reading line `i`, the file holds exactly
      what the whole input would give. */
  lemma WrittenAtCap(lines: seq<string>, i: int, unique: bool, limit: int)
    requires 0 <= i < |lines| && limit != 0
    requires |Considered(lines[..i + 1], unique)| == WriteCap(limit)
    ensures Considered(lines[..i + 1], unique) == Written(lines, unique, limit)
  {
    var a, c := Considered(lines[..i + 1], unique), Considered(lines, unique);
    ConsideredPrefix(lines, i + 1, unique);
    assert |a| <= |c|;
    assert Written(lines, unique, limit) == c[..|a|];
  }

  /** What a prefix of the input gives is a prefix of what the whole gives. */
  lemma ConsideredPrefix(lines: seq<string>, k: int, unique: bool)
    requires 0 <= k <= |lines|
    ensures Considered(lines[..k], unique) <= Considered(lines, unique)
  {
    assert lines[..k] + lines[k..] == lines;
    ConsideredIsDedup(lines[..k], unique);
    ConsideredIsDedup(lines, unique);
    if unique {
      DedupPrefix(lines[..k], lines[k..]);
    }
  }

  // ------------------------------------------------------------ write_output

  /** The count never exceeds a positive limit, a negative limit lets exactly
      one line through when there is one, and without a limit everything
      considered is written. */
  lemma WrittenCount(lines: seq<string>, unique: bool, limit: int)
    ensures limit > 0 ==> |Written(lines, unique, limit)| == Min(|Considered(lines, unique)|, limit)
    ensures limit < 0 ==> |Written(lines, unique, limit)| == Min(|Considered(lines, unique)|, 1)
    ensures limit == 0 ==> Written(lines, unique, limit) == Considered(lines, unique)
    ensures limit > 0 && |Considered(lines, unique)| <= limit ==>
              Written(lines, unique, limit) == Considered(lines, unique)
  {
  }

  /** What is written is an initial run of the input when `unique` is off; with
      `unique` on it is an initial run of the input's first occurrences, has no
      repeats and keeps the input's order. */
  lemma WrittenShape(lines: seq<string>, unique: bool, limit: int)
    ensures Written(lines, unique, limit) <= Considered(lines, unique)
    ensures !unique ==> Written(lines, unique, limit) <= lines
    ensures unique ==> NoDup(Written(lines, unique, limit))
    ensures IsSubseq(Written(lines, unique, limit), lines)
  {
    var c := Considered(lines, unique);
    var w := Written(lines, unique, limit);
    assert w == c[..|w|];
    ConsideredIsDedup(lines, unique);
    if unique {
      NoDupPrefix(w, c);
      DedupIsSubseq(lines);
    } else {
      SubseqRefl(lines);
    }
    SubseqPrefix(c, lines, |w|);
  }

  /** With `unique` and no limit, every distinct input line is written once. */
  lemma WrittenUniqueAll(lines: seq<string>, x: string)
    ensures x in Written(lines, true, 0) <==> x in lines
  {
    ConsideredIsDedup(lines, true);
    DedupMember(lines, x);
  }

  /** Raising a positive limit only lets more lines follow. */
  lemma WrittenMonotone(lines: seq<string>, unique: bool, a: int, b: int)
    requires 0 < a <= b
    ensures Written(lines, unique, a) <= Written(lines, unique, b)
  {
  }

  // ---------------------------------------------------------- buffered path

  /** How many candidates `main` collects before it stops:
      `if args.limit and len(collected) >= args.limit * 2: break` after each
      append, so a negative limit stops after the first. */
  function CollectCap(limit: int): (r: int)
    requires limit != 0
    ensures r >= 1
    ensures limit > 0 ==> r == 2 * limit
    ensures limit < 0 ==> r == 1
  {
    Max(1, 2 * limit)
  }

  /** The candidates collected from the generator's output `gen`. */
  function Collected(gen: seq<string>, limit: int): seq<string> {
    if limit == 0 then gen else gen[..Min(|gen|, CollectCap(limit))]
  }

  /** The collected candidates after `list(dict.fromkeys(collected))` when `unique` is set. */
  function Pool(gen: seq<string>, unique: bool, limit: int): seq<string> {
    var c := Collected(gen, limit);
    if unique then Dedup(c) else c
  }

  /** `collected[: args.limit]` when a limit is set. */
  function Truncated(pool: seq<string>, limit: int): seq<string> {
    if limit == 0 then pool else PyPrefix(pool, limit)
  }

  /** Lines 237-251 of `main`: collect, deduplicate, shuffle, truncate, then
      `write_output(collected, unique=False, limit=0)`. `random.shuffle` is any
      reordering; the order it picked is returned as `pool`. */
  method CollectBuffered(gen: seq<string>, unique: bool, shuffle: bool, limit: int)
    returns (file: seq<string>, written: int, ghost pool: seq<string>)
    ensures multiset(pool) == multiset(Pool(gen, unique, limit))
    ensures !shuffle ==> pool == Pool(gen, unique, limit)
    ensures file == Truncated(pool, limit)
    ensures written == |file|
  {
    var collected: seq<string> := [];
    for i := 0 to |gen|
      invariant collected == gen[..i]
      invariant limit != 0 ==> |collected| < CollectCap(limit)
    {
      collected := collected + [gen[i]];
      if limit != 0 && |collected| >= limit * 2 {
        assert collected == gen[..i + 1];
        break;
      }
    }
    assert collected == Collected(gen, limit);
    if unique {
      collected := Dedup(collected);
    }
    if shuffle {
      assert multiset(collected) == multiset(collected);
      var shuffled :| multiset(shuffled) == multiset(collected);
      collected := shuffled;
    }
    pool := collected;
    if limit != 0 {
      collected := PyPrefix(collected, limit);
    }
    file, written := WriteOutput(collected, false, 0);
    ConsideredIsDedup(collected, false);
  }

  /** Lines 234-258 of `main`: the buffered path when shuffling or
      deduplicating, otherwise `write_output` straight from the generator. */
  method Output(gen: seq<string>, unique: bool, shuffle: bool, limit: int)
    returns (file: seq<string>, written: int, ghost pool: seq<string>)
    ensures shuffle || unique ==> multiset(pool) == multiset(Pool(gen, unique, limit))
    ensures shuffle || unique ==> (!shuffle ==> pool == Pool(gen, unique, limit)) && file == Truncated(pool, limit)
    ensures !shuffle && !unique ==> file == Written(gen, false, limit)
    ensures written == |file|
  {
    if shuffle || unique {
      file, written, pool := CollectBuffered(gen, unique, shuffle, limit);
    } else {
      file, written := WriteOutput(gen, unique, limit);
      pool := gen;
    }
  }

  /** At most twice a positive limit is collected, always from the front of
      the generator's output. */
  lemma CollectedShape(gen: seq<string>, limit: int)
    ensures Collected(gen, limit) <= gen
    ensures limit > 0 ==> |Collected(gen, limit)| == Min(|gen|, 2 * limit)
    ensures limit < 0 ==> |Collected(gen, limit)| == Min(|gen|, 1)
  {
  }

  /** The buffered path writes at most `limit` lines for a positive limit,
      nothing for a negative one (one line is collected and `[:limit]` drops
      it), every line written is a candidate, and with `unique` no line repeats
      whatever order the shuffle picked. */
  lemma BufferedFacts(gen: seq<string>, unique: bool, limit: int, pool: seq<string>, x: string)
    requires multiset(pool) == multiset(Pool(gen, unique, limit))
    ensures limit > 0 ==> |Truncated(pool, limit)| <= limit
    ensures limit < 0 ==> Truncated(pool, limit) == []
    ensures x in Truncated(pool, limit) ==> x in gen
    ensures unique ==> NoDup(Truncated(pool, limit))
  {
    var t := Truncated(pool, limit);
    var c := Collected(gen, limit);
    assert |pool| == |Pool(gen, unique, limit)| by {
      assert |multiset(pool)| == |multiset(Pool(gen, unique, limit))|;
    }
    if unique {
      NoDupPermutation(Pool(gen, unique, limit), pool);
      NoDupPrefix(t, pool);
    }
    if x in t {
      assert x in multiset(pool);
      assert x in multiset(Pool(gen, unique, limit));
      if unique {
        DedupMember(c, x);
      }
      assert x in c;
    }
  }

  /** Without a shuffle, the unique buffered output is an initial run of what
      the streaming `write_output(gen, unique=True, limit)` writes. */
  lemma BufferedPrefixOfStreaming(gen: seq<string>, limit: int)
    ensures Truncated(Pool(gen, true, limit), limit) <= Written(gen, true, limit)
  {
    var c := Collected(gen, limit);
    assert c + gen[|c|..] == gen;
    DedupPrefix(c, gen[|c|..]);
    ConsideredIsDedup(gen, true);
  }

  /** Without a shuffle, the buffered output keeps the generator's order: it is
      an order-preserving subsequence of `gen`, with or without `unique`, for
      every limit. */
  lemma BufferedIsSubseq(gen: seq<string>, unique: bool, limit: int)
    ensures IsSubseq(Truncated(Pool(gen, unique, limit), limit), gen)
  {
    var c := Collected(gen, limit);
    var p := Pool(gen, unique, limit);
    var t := Truncated(p, limit);
    if unique {
      DedupIsSubseq(c);
    } else {
      SubseqRefl(c);
    }
    assert c == gen[..|c|];
    SubseqOfPrefix(p, gen, |c|);
    assert t == p[..|t|];
    SubseqPrefix(p, gen, |t|);
  }

  /** The buffered unique output can be shorter than the limit although the
      candidates hold enough distinct lines: only `2 * limit` candidates are
      collected before deduplication. Here four repeats of `a` fill the buffer
      for the limit 2, so `b` is never seen. */
  lemma BufferedFallsShort(a: string, b: string)
    requires a != b
    ensures Truncated(Pool([a, a, a, a, b], true, 2), 2) == [a]
    ensures Written([a, a, a, a, b], true, 2) == [a, b]
  {
    var gen := [a, a, a, a, b];
    assert Collected(gen, 2) == [a, a, a, a] by {
      assert gen[..4] == [a, a, a, a];
    }
    RepeatsExample(a, b);
    assert Considered(gen, true) == [a, b] by {
      ConsideredIsDedup(gen, true);
    }
  }

  lemma RepeatsExample<T>(a: T, b: T)
    requires a != b
    ensures Dedup([a, a, a, a]) == [a]
    ensures Dedup([a, a, a, a, b]) == [a, b]
  {
    var a4 := [a, a, a, a];
    DedupConstant(a4, a);
    assert a4 + [b] == [a, a, a, a, b];
    DedupSnoc(a4, b);
  }

  /** A non-empty run of one value deduplicates to that value alone. */
  lemma {:induction false} DedupConstant<T>(s: seq<T>, a: T)
    requires s != [] && forall i :: 0 <= i < |s| ==> s[i] == a
    ensures Dedup(s) == [a]
  {
    var p := s[..|s| - 1];
    InitLast(s);
    if p == [] {
      assert Dedup(p) == [];
    } else {
      DedupConstant(p, a);
      assert p[0] == a;
    }
    DedupSnoc(p, a);
  }
}
