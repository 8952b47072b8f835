/** The leet expander, `generate_leet_variants`: every character of the
    lower-cased word is given a pool of substitutes, and the Cartesian product
    of the pools is walked in `itertools.product` order, stopping after
    `max_variants` strings. */
module Leet {
  import opened Text
  import opened Seqs

  /** `DEFAULT_LEET_MAP`. Every substitute is a single character. */
  const DefaultLeetMap: map<char, seq<char>> :=
    map['a' := ['a', '4', '@'], 'e' := ['e', '3'], 'i' := ['i', '1', '!'],
        'o' := ['o', '0'], 's' := ['s', '5', '$'], 't' := ['t', '7']]

  /** The default `max_variants`. */
  const DefaultMaxVariants: int := 32

  /** `leet_map.get(ch, [ch])` */
  function PoolFor(c: char, leet: map<char, seq<char>>): seq<char> {
    if c in leet then leet[c] else [c]
  }

  /** The pools built for the (already lower-cased) letters. */
  function Pools(letters: string, leet: map<char, seq<char>>): (r: seq<seq<char>>)
    ensures |r| == |letters|
    ensures forall i :: 0 <= i < |letters| ==> r[i] == PoolFor(letters[i], leet)
  {
    seq(|letters|, i requires 0 <= i < |letters| => PoolFor(letters[i], leet))
  }

  function PrependAll(c: char, tails: seq<string>): (r: seq<string>)
    ensures |r| == |tails|
    ensures forall k :: 0 <= k < |tails| ==> r[k] == [c] + tails[k]
  {
    seq(|tails|, k requires 0 <= k < |tails| => [c] + tails[k])
  }

  /** Every character of `first`, in order, followed by every string of `rest`. */
  function ProductWith(first: seq<char>, rest: seq<string>): seq<string>
    decreases |first|
  {
    if first == [] then [] else PrependAll(first[0], rest) + ProductWith(first[1..], rest)
  }

  /** `itertools.product(*pools)` with each tuple joined into a string: the
      first pool varies slowest, the last fastest. */
  function Product(pools: seq<seq<char>>): (r: seq<string>)
    ensures forall i :: 0 <= i < |r| ==> |r[i]| == |pools|
    decreases |pools|
  {
    if pools == [] then [""]
    else
      ProductWithUniform(pools[0], Product(pools[1..]), |pools| - 1);
      ProductWith(pools[0], Product(pools[1..]))
  }

  /** Prepending one character to tails of one length gives strings one longer. */
  lemma {:induction false} ProductWithUniform(first: seq<char>, rest: seq<string>, n: int)
    requires forall i :: 0 <= i < |rest| ==> |rest[i]| == n
    ensures forall i :: 0 <= i < |ProductWith(first, rest)| ==> |ProductWith(first, rest)[i]| == n + 1
    decreases |first|
  {
    if first != [] {
      ProductWithUniform(first[1..], rest, n);
    }
  }

  /** The number of tuples the product has. */
  function ProductSize(pools: seq<seq<char>>): nat
    decreases |pools|
  {
    if pools == [] then 1 else |pools[0]| * ProductSize(pools[1..])
  }

  /** The strings `generate_leet_variants(word, leet, maxVariants)` yields: the
      product is cut after `maxVariants` strings, and since the count is compared
      after each yield, at least one string is yielded whenever the product has one. */
  function LeetVariants(word: string, leet: map<char, seq<char>>, maxVariants: int): seq<string> {
    var all := Product(Pools(Lower(word), leet));
    all[..Min(|all|, Max(1, maxVariants))]
  }

  method GenerateLeetVariants(word: string, leet: map<char, seq<char>>, maxVariants: int)
    returns (out: seq<string>)
    ensures out == LeetVariants(word, leet, maxVariants)
  {
    var letters := Lower(word);
    var pools: seq<seq<char>> := [];
    for i := 0 to |letters|
      invariant |pools| == i
      invariant forall j :: 0 <= j < i ==> pools[j] == PoolFor(letters[j], leet)
    {
      pools := pools + [PoolFor(letters[i], leet)];
    }
    assert pools == Pools(letters, leet);
    var products := Product(pools);
    out := [];
    var count := 0;
    for k := 0 to |products|
      invariant out == products[..k] && count == k
      invariant k == 0 || count < maxVariants
    {
      out := out + [products[k]];
      count := count + 1;
      if count >= maxVariants {
        return;
      }
    }
  }

  lemma PrependAllMember(c: char, tails: seq<string>, s: string)
    ensures s in PrependAll(c, tails) <==> |s| > 0 && s[0] == c && s[1..] in tails
  {
    if s in PrependAll(c, tails) {
      var k :| 0 <= k < |tails| && PrependAll(c, tails)[k] == s;
      assert s[1..] == tails[k];
    }
    if |s| > 0 && s[0] == c && s[1..] in tails {
      var k :| 0 <= k < |tails| && tails[k] == s[1..];
      assert PrependAll(c, tails)[k] == s;
    }
  }

  lemma {:induction false} ProductWithMember(first: seq<char>, rest: seq<string>, s: string)
    ensures s in ProductWith(first, rest) <==> |s| > 0 && s[0] in first && s[1..] in rest
    decreases |first|
  {
    if first != [] {
      ProductWithMember(first[1..], rest, s);
      PrependAllMember(first[0], rest, s);
      assert ProductWith(first, rest) == PrependAll(first[0], rest) + ProductWith(first[1..], rest);
      assert |s| > 0 ==> (s[0] in first <==> s[0] == first[0] || s[0] in first[1..]) by {
        assert first == [first[0]] + first[1..];
      }
    }
  }

  /** The product holds exactly the strings whose i-th character is drawn from
      the i-th pool. */
  lemma {:induction false} ProductMember(pools: seq<seq<char>>, s: string)
    ensures s in Product(pools) <==>
              |s| == |pools| && forall i :: 0 <= i < |pools| ==> s[i] in pools[i]
    decreases |pools|
  {
    if pools != [] {
      ProductWithMember(pools[0], Product(pools[1..]), s);
      if |s| > 0 {
        ProductMember(pools[1..], s[1..]);
        if |s| == |pools| && forall i :: 0 <= i < |pools| ==> s[i] in pools[i] {
          assert forall i :: 0 <= i < |pools| - 1 ==> s[1..][i] in pools[1..][i] by {
            forall i | 0 <= i < |pools| - 1 ensures s[1..][i] in pools[1..][i] {
              assert s[1..][i] == s[i + 1];
            }
          }
        }
        if s in Product(pools) {
          forall i | 0 <= i < |pools| ensures s[i] in pools[i] {
            if i > 0 {
              assert s[i] == s[1..][i - 1];
            }
          }
        }
      }
    } else {
      assert s in [""] <==> s == "";
    }
  }

  lemma {:induction false} ProductWithLength(first: seq<char>, rest: seq<string>)
    ensures |ProductWith(first, rest)| == |first| * |rest|
    decreases |first|
  {
    if first != [] {
      ProductWithLength(first[1..], rest);
      assert |first| * |rest| == |rest| + (|first| - 1) * |rest|;
    }
  }

  /** The product has as many strings as the pools' sizes multiplied. */
  lemma {:induction false} ProductLength(pools: seq<seq<char>>)
    ensures |Product(pools)| == ProductSize(pools)
    decreases |pools|
  {
    if pools != [] {
      ProductLength(pools[1..]);
      ProductWithLength(pools[0], Product(pools[1..]));
    }
  }

  /** When no pool is empty, the product starts with the string made of every
      pool's first character. */
  lemma {:induction false} ProductFirst(pools: seq<seq<char>>)
    requires forall i :: 0 <= i < |pools| ==> |pools[i]| > 0
    ensures |Product(pools)| > 0
    ensures |Product(pools)[0]| == |pools|
    ensures forall i :: 0 <= i < |pools| ==> Product(pools)[0][i] == pools[i][0]
    decreases |pools|
  {
    if pools != [] {
      ProductFirst(pools[1..]);
      var rest := Product(pools[1..]);
      assert ProductWith(pools[0], rest)[0] == PrependAll(pools[0][0], rest)[0];
      forall i | 0 < i < |pools| ensures Product(pools)[0][i] == pools[i][0] {
        assert pools[1..][i - 1] == pools[i];
      }
    }
  }

  /** The expander is bounded: it yields at most `maxVariants` strings (at least
      one is always allowed), exactly as many as the cut allows, each of them a
      string of the product in order. */
  lemma LeetVariantsCount(word: string, leet: map<char, seq<char>>, maxVariants: int)
    ensures LeetVariants(word, leet, maxVariants) <= Product(Pools(Lower(word), leet))
    ensures |LeetVariants(word, leet, maxVariants)|
              == Min(ProductSize(Pools(Lower(word), leet)), Max(1, maxVariants))
    ensures maxVariants >= 1 ==> |LeetVariants(word, leet, maxVariants)| <= maxVariants
  {
    ProductLength(Pools(Lower(word), leet));
  }

  /** Every yielded string substitutes each character of the lower-cased word
      by a member of its pool, so it has the word's length. */
  lemma LeetVariantsShape(word: string, leet: map<char, seq<char>>, maxVariants: int, k: int)
    requires 0 <= k < |LeetVariants(word, leet, maxVariants)|
    ensures |LeetVariants(word, leet, maxVariants)[k]| == |word|
    ensures forall i :: 0 <= i < |word| ==>
              LeetVariants(word, leet, maxVariants)[k][i] in PoolFor(LowerChar(word[i]), leet)
  {
    var pools := Pools(Lower(word), leet);
    ProductMember(pools, Product(pools)[k]);
  }

  /** Every pool of the default map starts with the letter itself. */
  lemma DefaultPoolStartsWithSelf(c: char)
    ensures |PoolFor(c, DefaultLeetMap)| > 0 && PoolFor(c, DefaultLeetMap)[0] == c
  {
  }

  /** Under the default map the first string yielded is `word.lower()`. */
  lemma LeetFirstIsLower(word: string, maxVariants: int)
    ensures |LeetVariants(word, DefaultLeetMap, maxVariants)| > 0
    ensures LeetVariants(word, DefaultLeetMap, maxVariants)[0] == Lower(word)
  {
    var pools := Pools(Lower(word), DefaultLeetMap);
    forall i | 0 <= i < |pools| ensures |pools[i]| > 0 && pools[i][0] == Lower(word)[i] {
      DefaultPoolStartsWithSelf(Lower(word)[i]);
    }
    ProductFirst(pools);
  }
}
