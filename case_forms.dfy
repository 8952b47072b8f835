/** `case_variants` and `re_split`: the original, lower, upper and capitalised
    forms of a word, plus a camel form when the word holds `-` or `_`. */
module CaseForms {
  import opened Text
  import opened Seqs

  /** A character of the regex class `[\-\._\s]`. */
  predicate IsDelimiter(c: char) {
    c == '-' || c == '.' || c == '_' || IsSpace(c)
  }

  /** Drops the run of delimiters at the front of `s`. */
  function SkipDelimiters(s: string): (r: string)
    ensures |r| <= |s|
    ensures r == [] || !IsDelimiter(r[0])
    ensures s != [] && IsDelimiter(s[0]) ==> |r| < |s|
  {
    if s != [] && IsDelimiter(s[0]) then SkipDelimiters(s[1..]) else s
  }

  /** What `SkipDelimiters` drops is a run of delimiters. */
  lemma {:induction false} SkippedRun(s: string)
    ensures AllDelimiters(s[..|s| - |SkipDelimiters(s)|])
  {
    if s != [] && IsDelimiter(s[0]) {
      SkippedRun(s[1..]);
      var n := |s| - |SkipDelimiters(s)|;
      assert s[..n] == [s[0]] + s[1..][..n - 1];
    }
  }

  predicate AllDelimiters(d: string) {
    forall i :: 0 <= i < |d| ==> IsDelimiter(d[i])
  }

  predicate NoDelimiter(p: string) {
    forall i :: 0 <= i < |p| ==> !IsDelimiter(p[i])
  }

  /** Skipping a run of delimiters followed by text that does not start with
      one leaves exactly that text. */
  lemma {:induction false} SkipRun(d: string, t: string)
    requires AllDelimiters(d)
    requires t == [] || !IsDelimiter(t[0])
    ensures SkipDelimiters(d + t) == t
  {
    if d != [] {
      assert (d + t)[1..] == d[1..] + t;
      SkipRun(d[1..], t);
    }
  }

  /** Splits `s` on runs of delimiters; `cur` is the part read so far. */
  function SplitFrom(s: string, cur: string): (r: seq<string>)
    ensures |r| >= 1
    decreases |s|
  {
    if s == [] then [cur]
    else if IsDelimiter(s[0]) then [cur] + SplitFrom(SkipDelimiters(s), [])
    else SplitFrom(s[1..], cur + [s[0]])
  }

  /** `re_split(s)`, that is `re.split(r"[\-\._\s]+", s)`: a leading or a
      trailing run of delimiters gives an empty first or last part. */
  function Split(s: string): (r: seq<string>)
    ensures |r| >= 1
    ensures Concat(r) == RemoveDelimiters(s)
  {
    SplitFromConcat(s, []);
    assert [] + RemoveDelimiters(s) == RemoveDelimiters(s);
    SplitFrom(s, [])
  }

  /** `s` with every delimiter character removed. */
  function RemoveDelimiters(s: string): (r: string)
    ensures |r| <= |s|
    ensures forall i :: 0 <= i < |r| ==> !IsDelimiter(r[i])
  {
    if s == [] then []
    else if IsDelimiter(s[0]) then RemoveDelimiters(s[1..])
    else [s[0]] + RemoveDelimiters(s[1..])
  }

  function Concat(parts: seq<string>): string {
    if parts == [] then [] else parts[0] + Concat(parts[1..])
  }

  lemma RemoveDelimitersSkip(s: string)
    ensures RemoveDelimiters(SkipDelimiters(s)) == RemoveDelimiters(s)
  {
  }

  /** The parts hold every non-delimiter character of the input, in order. */
  lemma {:induction false} SplitFromConcat(s: string, cur: string)
    ensures Concat(SplitFrom(s, cur)) == cur + RemoveDelimiters(s)
    decreases |s|, 1
  {
    if s != [] && IsDelimiter(s[0]) {
      SplitFromConcatAtDelimiter(s, cur);
    } else if s != [] {
      SplitFromConcatAtChar(s, cur);
    }
  }

  lemma {:induction false} SplitFromConcatAtDelimiter(s: string, cur: string)
    requires s != [] && IsDelimiter(s[0])
    ensures Concat(SplitFrom(s, cur)) == cur + RemoveDelimiters(s)
    decreases |s|, 0
  {
    var skipped := SkipDelimiters(s);
    var rest := SplitFrom(skipped, []);
    assert SplitFrom(s, cur) == [cur] + rest;
    assert Concat(rest) == RemoveDelimiters(s) by {
      SplitFromConcat(skipped, []);
      RemoveDelimitersSkip(s);
      assert [] + RemoveDelimiters(skipped) == RemoveDelimiters(skipped);
    }
    ConcatCons(cur, rest);
  }

  lemma {:induction false} SplitFromConcatAtChar(s: string, cur: string)
    requires s != [] && !IsDelimiter(s[0])
    ensures Concat(SplitFrom(s, cur)) == cur + RemoveDelimiters(s)
    decreases |s|, 0
  {
    var next := cur + [s[0]];
    SplitFromConcat(s[1..], next);
    assert RemoveDelimiters(s) == [s[0]] + RemoveDelimiters(s[1..]);
    assert next + RemoveDelimiters(s[1..]) == cur + RemoveDelimiters(s);
  }

  lemma ConcatCons(x: string, rest: seq<string>)
    ensures Concat([x] + rest) == x + Concat(rest)
  {
    assert ([x] + rest)[1..] == rest;
  }

  /** No part holds a delimiter, and since the split is on whole runs only the
      first and the last part can be empty. */
  lemma {:induction false} SplitFromParts(s: string, cur: string)
    requires forall i :: 0 <= i < |cur| ==> !IsDelimiter(cur[i])
    ensures forall k, i :: 0 <= k < |SplitFrom(s, cur)| && 0 <= i < |SplitFrom(s, cur)[k]|
              ==> !IsDelimiter(SplitFrom(s, cur)[k][i])
    ensures forall k :: 0 < k < |SplitFrom(s, cur)| - 1 ==> SplitFrom(s, cur)[k] != []
    decreases |s|, 1
  {
    if s != [] && IsDelimiter(s[0]) {
      SplitFromPartsAtDelimiter(s, cur);
    } else if s != [] {
      SplitFromParts(s[1..], cur + [s[0]]);
    }
  }

  lemma {:induction false} SplitFromPartsAtDelimiter(s: string, cur: string)
    requires s != [] && IsDelimiter(s[0])
    requires forall i :: 0 <= i < |cur| ==> !IsDelimiter(cur[i])
    ensures forall k, i :: 0 <= k < |SplitFrom(s, cur)| && 0 <= i < |SplitFrom(s, cur)[k]|
              ==> !IsDelimiter(SplitFrom(s, cur)[k][i])
    ensures forall k :: 0 < k < |SplitFrom(s, cur)| - 1 ==> SplitFrom(s, cur)[k] != []
    decreases |s|, 0
  {
    var rest := SkipDelimiters(s);
    var tail := SplitFrom(rest, []);
    SplitFromParts(rest, []);
    assert SplitFrom(s, cur) == [cur] + tail;
    if rest != [] {
      SplitFromFirst(rest[1..], [rest[0]]);
      assert [] + [rest[0]] == [rest[0]];
      assert tail == SplitFrom(rest[1..], [rest[0]]);
    }
    forall k | 0 < k < |SplitFrom(s, cur)| - 1 ensures SplitFrom(s, cur)[k] != [] {
      assert SplitFrom(s, cur)[k] == tail[k - 1];
    }
  }

  /** The first part grows from `cur`, so it is not empty when `cur` is not. */
  lemma {:induction false} SplitFromFirst(s: string, cur: string)
    requires cur != []
    ensures SplitFrom(s, cur)[0] != []
    decreases |s|
  {
    if s != [] && !IsDelimiter(s[0]) {
      SplitFromFirst(s[1..], cur + [s[0]]);
    }
  }

  /** `parts[0] + seps[0] + parts[1] + ... + parts[n - 1]`. */
  function Interleave(parts: seq<string>, seps: seq<string>): string
    requires |parts| == |seps| + 1
    decreases |seps|
  {
    if seps == [] then parts[0] else parts[0] + seps[0] + Interleave(parts[1..], seps[1..])
  }

  predicate DelimiterRuns(seps: seq<string>) {
    forall j :: 0 <= j < |seps| ==> seps[j] != [] && AllDelimiters(seps[j])
  }

  /** `s` is the parts with a non-empty run of delimiters between each two. */
  predicate Separates(parts: seq<string>, seps: seq<string>, s: string) {
    |parts| == |seps| + 1 && DelimiterRuns(seps) && Interleave(parts, seps) == s
  }

  /** No part holds a delimiter and only the first and the last can be empty. */
  predicate WellFormedParts(parts: seq<string>) {
    (forall k :: 0 <= k < |parts| ==> NoDelimiter(parts[k])) &&
    (forall k :: 0 < k < |parts| - 1 ==> parts[k] != [])
  }

  lemma SeparatesCons(p: string, d: string, parts: seq<string>, seps: seq<string>, t: string)
    requires Separates(parts, seps, t) && d != [] && AllDelimiters(d)
    ensures Separates([p] + parts, [d] + seps, p + (d + t))
  {
    assert ([p] + parts)[1..] == parts && ([d] + seps)[1..] == seps;
    forall j | 0 < j < |[d] + seps| ensures ([d] + seps)[j] != [] && AllDelimiters(([d] + seps)[j]) {
      assert ([d] + seps)[j] == seps[j - 1];
    }
  }

  lemma SeparatesUncons(parts: seq<string>, seps: seq<string>, s: string)
    requires Separates(parts, seps, s) && seps != []
    ensures Separates(parts[1..], seps[1..], Interleave(parts[1..], seps[1..]))
    ensures s == parts[0] + seps[0] + Interleave(parts[1..], seps[1..])
    ensures seps[0] != [] && AllDelimiters(seps[0])
  {
    forall j | 0 <= j < |seps[1..]| ensures seps[1..][j] != [] && AllDelimiters(seps[1..][j]) {
      assert seps[1..][j] == seps[j + 1];
    }
  }

  lemma WellFormedTail(parts: seq<string>)
    requires WellFormedParts(parts) && |parts| > 1
    ensures WellFormedParts(parts[1..])
  {
    forall k | 0 <= k < |parts| - 1 ensures NoDelimiter(parts[1..][k]) && (0 < k < |parts| - 2 ==> parts[1..][k] != []) {
      assert parts[1..][k] == parts[k + 1];
    }
  }

  lemma InterleaveStart(parts: seq<string>, seps: seq<string>)
    requires |parts| == |seps| + 1 && parts[0] != []
    ensures Interleave(parts, seps) != [] && Interleave(parts, seps)[0] == parts[0][0]
  {
  }

  /** The runs of delimiters in `s`, in order: the separators `re_split`
      removes. */
  function Runs(s: string): seq<string>
    decreases |s|
  {
    if s == [] then []
    else if IsDelimiter(s[0]) then
      var rest := SkipDelimiters(s);
      [s[..|s| - |rest|]] + Runs(rest)
    else Runs(s[1..])
  }

  /** The part read so far, followed by the parts still to come separated by
      the runs of delimiters, gives back the text read. */
  lemma {:induction false} SplitFromRebuilds(s: string, cur: string)
    ensures Separates(SplitFrom(s, cur), Runs(s), cur + s)
    decreases |s|, 1
  {
    if s == [] {
      assert cur + s == cur;
    } else if IsDelimiter(s[0]) {
      SplitFromRebuildsAtDelimiter(s, cur);
    } else {
      var next := cur + [s[0]];
      SplitFromRebuilds(s[1..], next);
      assert next + s[1..] == cur + s;
    }
  }

  lemma {:induction false} SplitFromRebuildsAtDelimiter(s: string, cur: string)
    requires s != [] && IsDelimiter(s[0])
    ensures Separates(SplitFrom(s, cur), Runs(s), cur + s)
    decreases |s|, 0
  {
    var rest := SkipDelimiters(s);
    var d := s[..|s| - |rest|];
    AtDelimiter(s, cur);
    SplitFromRebuilds(rest, []);
    assert [] + rest == rest;
    SeparatesConsAt(cur, d, SplitFrom(rest, []), Runs(rest), rest,
                    SplitFrom(s, cur), Runs(s), cur + s);
  }

  /** At a delimiter the split closes the current part and the runs start with
      the leading delimiter run, a non-empty run of delimiters before the rest. */
  lemma AtDelimiter(s: string, cur: string)
    requires s != [] && IsDelimiter(s[0])
    ensures SplitFrom(s, cur) == [cur] + SplitFrom(SkipDelimiters(s), [])
    ensures Runs(s) == [s[..|s| - |SkipDelimiters(s)|]] + Runs(SkipDelimiters(s))
    ensures s[..|s| - |SkipDelimiters(s)|] != [] && AllDelimiters(s[..|s| - |SkipDelimiters(s)|])
    ensures s[..|s| - |SkipDelimiters(s)|] + SkipDelimiters(s) == s
  {
    SplitFromAtDelimiter(s, cur);
    RunsAtDelimiter(s);
    LeadingRun(s);
  }

  /** At a delimiter the current part is closed and reading goes on after the run. */
  lemma SplitFromAtDelimiter(s: string, cur: string)
    requires s != [] && IsDelimiter(s[0])
    ensures SplitFrom(s, cur) == [cur] + SplitFrom(SkipDelimiters(s), [])
  {
  }

  /** At a delimiter the runs start with the leading one. */
  lemma RunsAtDelimiter(s: string)
    requires s != [] && IsDelimiter(s[0])
    ensures Runs(s) == [s[..|s| - |SkipDelimiters(s)|]] + Runs(SkipDelimiters(s))
  {
    var rest := SkipDelimiters(s);
    var d := s[..|s| - |rest|];
    assert Runs(s) == [d] + Runs(rest);
  }

  /** The leading delimiter run is non-empty, all delimiters, and followed by
      what `SkipDelimiters` keeps. */
  lemma LeadingRun(s: string)
    requires s != [] && IsDelimiter(s[0])
    ensures s[..|s| - |SkipDelimiters(s)|] != [] && AllDelimiters(s[..|s| - |SkipDelimiters(s)|])
    ensures s[..|s| - |SkipDelimiters(s)|] + SkipDelimiters(s) == s
  {
    var rest := SkipDelimiters(s);
    var n := |s| - |rest|;
    SkippedRun(s);
    assert rest == s[n..];
    assert s[..n] + s[n..] == s;
  }

  /** `SeparatesCons` with its conclusion named. */
  lemma SeparatesConsAt(p: string, d: string, parts: seq<string>, seps: seq<string>, t: string,
                        allParts: seq<string>, allSeps: seq<string>, all: string)
    requires Separates(parts, seps, t) && d != [] && AllDelimiters(d)
    requires allParts == [p] + parts && allSeps == [d] + seps && all == p + (d + t)
    ensures Separates(allParts, allSeps, all)
  {
    SeparatesCons(p, d, parts, seps, t);
  }

  /** Reading on from `cur`, well-formed parts that give back `s` when
      separated by delimiter runs are what the split finds, the first one
      glued to `cur`. */
  lemma {:induction false} SplitFromUnique(s: string, cur: string, parts: seq<string>, seps: seq<string>)
    requires NoDelimiter(cur) && WellFormedParts(parts) && Separates(parts, seps, s)
    ensures SplitFrom(s, cur) == [cur + parts[0]] + parts[1..]
    decreases |s|, 1
  {
    if seps == [] {
      assert s == parts[0];
      SplitFromWhole(s, cur);
      assert parts == [parts[0]];
    } else if parts[0] != [] {
      SplitFromUniqueAtChar(s, cur, parts, seps);
    } else {
      SplitFromUniqueAtDelimiter(s, cur, parts, seps);
    }
  }

  /** Text without delimiters is read into the current part. */
  lemma {:induction false} SplitFromWhole(s: string, cur: string)
    requires NoDelimiter(s)
    ensures SplitFrom(s, cur) == [cur + s]
    decreases |s|
  {
    if s == [] {
      assert cur + s == cur;
    } else {
      SplitFromWhole(s[1..], cur + [s[0]]);
      assert (cur + [s[0]]) + s[1..] == cur + s;
    }
  }

  lemma {:induction false} SplitFromUniqueAtChar(s: string, cur: string, parts: seq<string>, seps: seq<string>)
    requires NoDelimiter(cur) && WellFormedParts(parts) && Separates(parts, seps, s)
    requires seps != [] && parts[0] != []
    ensures SplitFrom(s, cur) == [cur + parts[0]] + parts[1..]
    decreases |s|, 0
  {
    var c, p0 := parts[0][0], parts[0][1..];
    var parts' := [p0] + parts[1..];
    SeparatesUncons(parts, seps, s);
    var rest := Interleave(parts[1..], seps[1..]);
    SeparatesCons(p0, seps[0], parts[1..], seps[1..], rest);
    assert [seps[0]] + seps[1..] == seps;
    assert parts[0] == [c] + p0;
    assert s == [c] + (p0 + (seps[0] + rest));
    assert s[1..] == p0 + (seps[0] + rest);
    forall k | 0 <= k < |parts'| ensures NoDelimiter(parts'[k]) && (0 < k < |parts'| - 1 ==> parts'[k] != []) {
      if k > 0 {
        assert parts'[k] == parts[k];
      }
    }
    var next := cur + [c];
    assert NoDelimiter(next);
    SplitFromUnique(s[1..], next, parts', seps);
    assert SplitFrom(s, cur) == SplitFrom(s[1..], next);
    assert parts'[1..] == parts[1..];
    assert next + p0 == cur + parts[0];
  }

  lemma {:induction false} SplitFromUniqueAtDelimiter(s: string, cur: string, parts: seq<string>, seps: seq<string>)
    requires WellFormedParts(parts) && Separates(parts, seps, s)
    requires seps != [] && parts[0] == []
    ensures SplitFrom(s, cur) == [cur + parts[0]] + parts[1..]
    decreases |s|, 0
  {
    var tail := parts[1..];
    var rest := Interleave(tail, seps[1..]);
    assert Separates(tail, seps[1..], rest) && s == seps[0] + rest by {
      SeparatesUncons(parts, seps, s);
      assert [] + seps[0] == seps[0];
    }
    assert SkipDelimiters(s) == rest && IsDelimiter(s[0]) by {
      SeparatesUncons(parts, seps, s);
      if tail[0] != [] {
        InterleaveStart(tail, seps[1..]);
      } else {
        assert |parts| == 2;
        assert rest == tail[0];
      }
      SkipRun(seps[0], rest);
      assert s[0] == seps[0][0];
    }
    assert SplitFrom(rest, []) == tail by {
      WellFormedTail(parts);
      SplitFromUnique(rest, [], tail, seps[1..]);
      assert [] + tail[0] == tail[0];
      assert [tail[0]] + tail[1..] == tail;
    }
    assert cur + parts[0] == cur;
  }

  /** `re_split(s)`: at least one part; the parts joined give `s` without its
      delimiters; no part holds a delimiter; only the first and last part can
      be empty; and separating the parts by the runs of delimiters that were
      skipped gives back `s`. */
  lemma SplitParts(s: string)
    ensures |Split(s)| >= 1
    ensures Concat(Split(s)) == RemoveDelimiters(s)
    ensures forall k, i :: 0 <= k < |Split(s)| && 0 <= i < |Split(s)[k]| ==> !IsDelimiter(Split(s)[k][i])
    ensures forall k :: 0 < k < |Split(s)| - 1 ==> Split(s)[k] != []
    ensures Separates(Split(s), Runs(s), s)
  {
    SplitFromConcat(s, []);
    SplitFromParts(s, []);
    SplitFromRebuilds(s, []);
    assert [] + s == s;
  }

  /** No other list of parts has the properties of `SplitParts`: delimiter-free
      parts, non-empty inner parts, and `s` given back when they are separated
      by non-empty runs of delimiters are the split of `s`. */
  lemma SplitUnique(s: string, parts: seq<string>, seps: seq<string>)
    requires WellFormedParts(parts) && Separates(parts, seps, s)
    ensures Split(s) == parts
  {
    SplitFromUnique(s, [], parts, seps);
    assert [] + parts[0] == parts[0];
    assert [parts[0]] + parts[1..] == parts;
  }

  /** `[p for p in parts if p]` */
  function NonEmpty(parts: seq<string>): (r: seq<string>)
    ensures forall k :: 0 <= k < |r| ==> r[k] != []
    ensures Concat(r) == Concat(parts)
  {
    if parts == [] then []
    else if parts[0] == [] then NonEmpty(parts[1..])
    else [parts[0]] + NonEmpty(parts[1..])
  }

  function CountNonEmpty(parts: seq<string>): nat {
    if parts == [] then 0 else (if parts[0] == [] then 0 else 1) + CountNonEmpty(parts[1..])
  }

  /** `NonEmpty` keeps one element per non-empty part ... */
  lemma {:induction false} NonEmptyLength(parts: seq<string>)
    ensures |NonEmpty(parts)| == CountNonEmpty(parts)
  {
    if parts != [] {
      NonEmptyLength(parts[1..]);
    }
  }

  /** ... and a non-empty part `i` is kept at the position given by the number
      of non-empty parts before it, so the result is the non-empty parts in
      their order. */
  lemma {:induction false} NonEmptyAt(parts: seq<string>, i: int)
    requires 0 <= i < |parts| && parts[i] != []
    ensures CountNonEmpty(parts[..i]) < |NonEmpty(parts)|
    ensures NonEmpty(parts)[CountNonEmpty(parts[..i])] == parts[i]
  {
    if i == 0 {
      assert parts[..0] == [];
    } else {
      var tail := parts[1..];
      NonEmptyAt(tail, i - 1);
      assert tail[i - 1] == parts[i];
      assert parts[..i][1..] == tail[..i - 1];
    }
  }

  /** `"".join(p.capitalize() for p in parts)` */
  function CamelJoin(parts: seq<string>): (r: string)
    ensures |r| == |Concat(parts)|
  {
    if parts == [] then [] else Capitalize(parts[0]) + CamelJoin(parts[1..])
  }

  /** The parts the camel form is built from. */
  function CamelParts(word: string): seq<string> {
    NonEmpty(Split(word))
  }

  /** The word holds `-` or `_` and has at least one non-empty part. */
  predicate HasCamel(word: string) {
    ('-' in word || '_' in word) && CamelParts(word) != []
  }

  function Camel(word: string): string {
    CamelJoin(CamelParts(word))
  }

  /** `set(case_variants(word))`; the list order is that of a Python set, so
      only the set is modelled. */
  function CaseVariants(word: string): (r: set<string>)
    ensures {word, Lower(word), Upper(word), Capitalize(word)} <= r
    ensures HasCamel(word) ==> Camel(word) in r
    ensures forall v :: v in r ==>
              v == word || v == Lower(word) || v == Upper(word) || v == Capitalize(word)
              || (HasCamel(word) && v == Camel(word))
    ensures |r| <= if HasCamel(word) then 5 else 4
  {
    var four := {word, Lower(word), Upper(word), Capitalize(word)};
    FourSize(word, Lower(word), Upper(word), Capitalize(word));
    if HasCamel(word) then
      SetUnionSize(four, {Camel(word)});
      four + {Camel(word)}
    else four
  }

  lemma LowerUpperChar(c: char)
    ensures LowerChar(UpperChar(c)) == LowerChar(c)
  {
  }

  lemma {:induction false} LowerConcat(a: string, b: string)
    ensures Lower(a + b) == Lower(a) + Lower(b)
  {
  }

  /** Up to case, the camel form is the word with its delimiters removed. */
  lemma {:induction false} CamelJoinLower(parts: seq<string>)
    ensures Lower(CamelJoin(parts)) == Lower(Concat(parts))
  {
    if parts != [] {
      CamelJoinLower(parts[1..]);
      var p := parts[0];
      LowerConcat(Capitalize(p), CamelJoin(parts[1..]));
      LowerConcat(p, Concat(parts[1..]));
      if p != [] {
        LowerUpperChar(p[0]);
      }
      assert Lower(Capitalize(p)) == Lower(p);
    }
  }

  /** Where part `k` starts in the parts joined: the lengths of the parts
      before it, added up. */
  function Offset(parts: seq<string>, k: int): int
    requires 0 <= k <= |parts|
  {
    if k == 0 then 0 else |parts[0]| + Offset(parts[1..], k - 1)
  }

  /** Each part capitalised. */
  function Caps(parts: seq<string>): (r: seq<string>)
    ensures |r| == |parts|
    ensures forall i :: 0 <= i < |parts| ==> r[i] == Capitalize(parts[i])
  {
    if parts == [] then [] else [Capitalize(parts[0])] + Caps(parts[1..])
  }

  /** The camel join is the capitalised parts joined. */
  lemma {:induction false} CamelJoinIsConcat(parts: seq<string>)
    ensures CamelJoin(parts) == Concat(Caps(parts))
  {
    if parts != [] {
      CamelJoinIsConcat(parts[1..]);
      ConcatCons(Capitalize(parts[0]), Caps(parts[1..]));
    }
  }

  /** Part `k` appears capitalised in the camel join, at the offset where it
      starts in the parts joined. */
  lemma {:induction false} CamelJoinAt(parts: seq<string>, k: int)
    requires 0 <= k < |parts|
    ensures 0 <= Offset(parts, k) && Offset(parts, k) + |parts[k]| <= |CamelJoin(parts)|
    ensures CamelJoin(parts)[Offset(parts, k)..Offset(parts, k) + |parts[k]|] == Capitalize(parts[k])
  {
    CamelJoinIsConcat(parts);
    ConcatAtAligned(Caps(parts), parts, k);
  }

  /** Where `Offset` places `parts[k]`, a sequence of strings of the same
      lengths has its own element `k`. */
  lemma {:induction false} ConcatAtAligned(xs: seq<string>, parts: seq<string>, k: int)
    requires |xs| == |parts| && 0 <= k < |parts|
    requires forall i :: 0 <= i < |parts| ==> |xs[i]| == |parts[i]|
    ensures 0 <= Offset(parts, k) && Offset(parts, k) + |parts[k]| <= |Concat(xs)|
    ensures Concat(xs)[Offset(parts, k)..Offset(parts, k) + |parts[k]|] == xs[k]
  {
    var rest := Concat(xs[1..]);
    assert Concat(xs) == xs[0] + rest;
    if k == 0 {
      PrefixOfAppend(xs[0], rest);
      assert Offset(parts, k) == 0;
    } else {
      ConcatAtAligned(xs[1..], parts[1..], k - 1);
      var o, n := Offset(parts[1..], k - 1), |parts[k]|;
      assert xs[1..][k - 1] == xs[k] && parts[1..][k - 1] == parts[k];
      assert Offset(parts, k) == |xs[0]| + o;
      SliceOfAppend(xs[0], rest, o, o + n);
    }
  }

  /** The camel form, when present, is non-empty, has no delimiter in it, and
      equals the word without its delimiters up to case; so it is never longer
      than the word. */
  lemma CamelShape(word: string)
    requires HasCamel(word)
    ensures Lower(Camel(word)) == Lower(RemoveDelimiters(word))
    ensures 0 < |Camel(word)| <= |word|
  {
    SplitParts(word);
    CamelJoinLower(CamelParts(word));
    var parts := CamelParts(word);
    assert |Concat(parts)| >= |parts[0]| > 0 by {
      assert Concat(parts) == parts[0] + Concat(parts[1..]);
    }
  }

  /** Every case variant has the word's length except the camel form, which
      is only added when the word holds `-` or `_`. */
  lemma CaseVariantLength(word: string, v: string)
    requires v in CaseVariants(word)
    ensures |v| <= |word|
    ensures |v| != |word| ==> HasCamel(word) && v == Camel(word)
    ensures !('-' in word || '_' in word) ==> |v| == |word|
  {
    if HasCamel(word) {
      CamelShape(word);
    }
  }
}
