/** Sampling sender/recipient pairs for test labels: entries are grouped by
    the first two characters of their zip code, in order of first
    appearance, and each group is paired off two at a time. */
module AddressPairs {
  import opened Common

  /** The columns of an entry that a label shows. */
  datatype AddressRow = AddressRow(firstname0: string, name0: string, street: string,
                                   housenumber: string, zipcode: string, city: string)

  datatype Formatted = Lines(lines: seq<string>) | Text(text: string)

  /** The three label lines of an entry. */
  function AddressLines(row: AddressRow): (r: seq<string>)
    ensures |r| == 3
    ensures r[0] == row.firstname0 + " " + row.name0
    ensures r[1] == row.street + " " + row.housenumber
    ensures r[2] == row.zipcode + " " + row.city
  {
    [row.firstname0 + " " + row.name0, row.street + " " + row.housenumber, row.zipcode + " " + row.city]
  }

  /** `format_address(row, delimiter)`: the lines themselves for a `None`
      delimiter, otherwise the lines joined by it. */
  function FormatAddress(row: AddressRow, delimiter: Option<string>): (r: Formatted)
    ensures delimiter.None? <==> r.Lines?
    ensures r.Lines? ==> r.lines == AddressLines(row)
    ensures r.Text? ==> r.text == row.firstname0 + " " + row.name0 + delimiter.value
                               + row.street + " " + row.housenumber + delimiter.value
                               + row.zipcode + " " + row.city
  {
    var lines := AddressLines(row);
    match delimiter
    case None => Lines(lines)
    case Some(d) =>
      assert lines[1..][1..] == [lines[2]];
      assert Join(lines[1..], d) == lines[1] + d + lines[2];
      assert Join(lines, d) == lines[0] + d + (lines[1] + d + lines[2]);
      Text(Join(lines, d))
  }

  // ---------------------------------------------------------------- grouping

  /** `s[:2]`. */
  function Prefix(s: string): (r: string)
    ensures |r| <= 2 && |r| <= |s| && r == s[..|r|]
    ensures |s| >= 2 ==> |r| == 2
  {
    if |s| < 2 then s else s[..2]
  }

  /** `prefix_map`: (prefix, group) in order of first appearance. */
  type Groups<T> = seq<(string, seq<T>)>

  /** Whether `q` is a key of the groups. */
  predicate KeyIn<T>(gs: Groups<T>, q: string)
  {
    |gs| > 0 && (gs[0].0 == q || KeyIn(gs[1..], q))
  }

  /** The group stored under key `p`, or the empty list. */
  function Lookup<T>(gs: Groups<T>, p: string): seq<T>
  {
    if |gs| == 0 then [] else if gs[0].0 == p then gs[0].1 else Lookup(gs[1..], p)
  }

  /** All grouped entries, group by group. */
  function Members<T>(gs: Groups<T>): seq<T>
  {
    if |gs| == 0 then [] else gs[0].1 + Members(gs[1..])
  }

  /** No key is stored twice. */
  predicate DistinctKeys<T>(gs: Groups<T>)
  {
    |gs| == 0 || (!KeyIn(gs[1..], gs[0].0) && DistinctKeys(gs[1..]))
  }

  /** `prefix_map[prefix].append(entry)`. */
  function AddEntry<T>(gs: Groups<T>, p: string, e: T): Groups<T>
  {
    if |gs| == 0 then [(p, [e])]
    else if gs[0].0 == p then [(p, gs[0].1 + [e])] + gs[1..]
    else [gs[0]] + AddEntry(gs[1..], p, e)
  }

  /** Appending an entry adds its key, if new, and no other. */
  lemma {:induction false} AddEntryKeyIn<T>(gs: Groups<T>, p: string, e: T, q: string)
    ensures KeyIn(AddEntry(gs, p, e), q) <==> KeyIn(gs, q) || q == p
  {
    if |gs| > 0 && gs[0].0 != p {
      AddEntryKeyIn(gs[1..], p, e, q);
      assert AddEntry(gs, p, e)[1..] == AddEntry(gs[1..], p, e);
    } else if |gs| > 0 {
      assert AddEntry(gs, p, e)[1..] == gs[1..];
    }
  }

  /** Appending an entry keeps the keys distinct. */
  lemma {:induction false} AddEntryDistinct<T>(gs: Groups<T>, p: string, e: T)
    requires DistinctKeys(gs)
    ensures DistinctKeys(AddEntry(gs, p, e))
  {
    if |gs| > 0 && gs[0].0 != p {
      AddEntryDistinct(gs[1..], p, e);
      AddEntryKeyIn(gs[1..], p, e, gs[0].0);
      assert AddEntry(gs, p, e)[1..] == AddEntry(gs[1..], p, e);
    } else if |gs| > 0 {
      assert AddEntry(gs, p, e)[1..] == gs[1..];
    }
  }

  /** Appending an entry adds it to its key's group and nowhere else. */
  lemma {:induction false} AddEntryLookup<T>(gs: Groups<T>, p: string, e: T, q: string)
    ensures Lookup(AddEntry(gs, p, e), q) == Lookup(gs, q) + (if q == p then [e] else [])
  {
    if |gs| > 0 && gs[0].0 != p {
      AddEntryLookup(gs[1..], p, e, q);
      assert AddEntry(gs, p, e)[1..] == AddEntry(gs[1..], p, e);
    } else if |gs| > 0 {
      assert AddEntry(gs, p, e)[1..] == gs[1..];
    }
  }

  /** Appending an entry adds it once to the grouped entries. */
  lemma {:induction false} AddEntryMembers<T>(gs: Groups<T>, p: string, e: T)
    ensures multiset(Members(AddEntry(gs, p, e))) == multiset(Members(gs)) + multiset{e}
  {
    if |gs| > 0 && gs[0].0 != p {
      AddEntryMembers(gs[1..], p, e);
      assert AddEntry(gs, p, e)[1..] == AddEntry(gs[1..], p, e);
    } else if |gs| > 0 {
      var r := AddEntry(gs, p, e);
      assert r[1..] == gs[1..];
      assert Members(r) == gs[0].1 + [e] + Members(gs[1..]);
    } else {
      assert Members(AddEntry(gs, p, e)) == [e] + Members([]);
    }
  }

  /** The entries with a given prefix, in input order. */
  function WithPrefix<T>(entries: seq<T>, zip: T -> string, p: string): seq<T>
  {
    if |entries| == 0 then []
    else WithPrefix(entries[..|entries| - 1], zip, p)
         + (if Prefix(zip(entries[|entries| - 1])) == p then [entries[|entries| - 1]] else [])
  }

  /** The grouping loop of `generate_pairs`. */
  function GroupByPrefix<T>(entries: seq<T>, zip: T -> string): Groups<T>
  {
    if |entries| == 0 then []
    else
      var last := entries[|entries| - 1];
      AddEntry(GroupByPrefix(entries[..|entries| - 1], zip), Prefix(zip(last)), last)
  }

  /** Each group holds exactly the entries with its prefix, in input
      order, and the keys are distinct. */
  lemma {:induction false} GroupByPrefixLookup<T>(entries: seq<T>, zip: T -> string)
    ensures DistinctKeys(GroupByPrefix(entries, zip))
    ensures forall q :: Lookup(GroupByPrefix(entries, zip), q) == WithPrefix(entries, zip, q)
  {
    if |entries| > 0 {
      var front, last := entries[..|entries| - 1], entries[|entries| - 1];
      var gs := GroupByPrefix(front, zip);
      GroupByPrefixLookup(front, zip);
      AddEntryDistinct(gs, Prefix(zip(last)), last);
      forall q
        ensures Lookup(GroupByPrefix(entries, zip), q) == WithPrefix(entries, zip, q)
      {
        AddEntryLookup(gs, Prefix(zip(last)), last, q);
      }
    }
  }

  /** The keys are exactly the prefixes that occur. */
  lemma {:induction false} GroupByPrefixKeys<T>(entries: seq<T>, zip: T -> string, q: string)
    ensures KeyIn(GroupByPrefix(entries, zip), q) <==> exists k :: 0 <= k < |entries| && Prefix(zip(entries[k])) == q
  {
    if |entries| > 0 {
      var front, last := entries[..|entries| - 1], entries[|entries| - 1];
      GroupByPrefixKeys(front, zip, q);
      AddEntryKeyIn(GroupByPrefix(front, zip), Prefix(zip(last)), last, q);
      if exists k :: 0 <= k < |entries| && Prefix(zip(entries[k])) == q {
        var k :| 0 <= k < |entries| && Prefix(zip(entries[k])) == q;
        if k < |front| {
          assert front[k] == entries[k];
        }
      }
      if exists k :: 0 <= k < |front| && Prefix(zip(front[k])) == q {
        var k :| 0 <= k < |front| && Prefix(zip(front[k])) == q;
        assert entries[k] == front[k];
      }
    }
  }

  /** Together the groups hold every entry exactly once. */
  lemma {:induction false} GroupByPrefixMembers<T>(entries: seq<T>, zip: T -> string)
    ensures multiset(Members(GroupByPrefix(entries, zip))) == multiset(entries)
  {
    if |entries| > 0 {
      var front, last := entries[..|entries| - 1], entries[|entries| - 1];
      GroupByPrefixMembers(front, zip);
      AddEntryMembers(GroupByPrefix(front, zip), Prefix(zip(last)), last);
      assert entries == front + [last];
    }
  }

  /** Every entry in a group carries the group's prefix. */
  lemma {:induction false} WithPrefixMembers<T>(entries: seq<T>, zip: T -> string, p: string)
    ensures forall e :: e in WithPrefix(entries, zip, p) ==> Prefix(zip(e)) == p
  {
    if |entries| > 0 {
      WithPrefixMembers(entries[..|entries| - 1], zip, p);
    }
  }

  // ---------------------------------------------------------------- pairing

  /** `while len(group) >= 2: pairs.append((group.pop(0), group.pop(0)))`. */
  function PairUp<T>(g: seq<T>): (r: seq<(T, T)>)
    ensures |r| == |g| / 2
  {
    if |g| < 2 then [] else [(g[0], g[1])] + PairUp(g[2..])
  }

  /** The entries of a list of pairs, pair by pair. */
  function Unpair<T>(ps: seq<(T, T)>): (r: seq<T>)
    ensures |r| == 2 * |ps|
  {
    if |ps| == 0 then [] else [ps[0].0, ps[0].1] + Unpair(ps[1..])
  }

  lemma {:induction false} UnpairAppend<T>(a: seq<(T, T)>, b: seq<(T, T)>)
    ensures Unpair(a + b) == Unpair(a) + Unpair(b)
  {
    if |a| == 0 {
      assert a + b == b;
    } else {
      assert (a + b)[0] == a[0] && (a + b)[1..] == a[1..] + b;
      UnpairAppend(a[1..], b);
    }
  }

  /** Pairing takes consecutive entries in order and leaves at most the
      last one over. */
  lemma {:induction false} PairUpConsecutive<T>(g: seq<T>)
    ensures Unpair(PairUp(g)) == g[..2 * (|g| / 2)]
  {
    if |g| >= 2 {
      PairUpConsecutive(g[2..]);
      assert g[..2 * (|g| / 2)] == [g[0], g[1]] + g[2..][..2 * (|g[2..]| / 2)];
    }
  }

  function PairsOf<T>(gs: Groups<T>): seq<(T, T)>
  {
    if |gs| == 0 then [] else PairUp(gs[0].1) + PairsOf(gs[1..])
  }

  /** `generate_pairs(entries, ZIP_COLUMN)`. */
  function GeneratePairs<T>(entries: seq<T>, zip: T -> string): seq<(T, T)>
  {
    PairsOf(GroupByPrefix(entries, zip))
  }

  /** The pairs of the groups use each grouped entry at most once. */
  lemma {:induction false} PairsOfUseMembersOnce<T>(gs: Groups<T>)
    ensures multiset(Unpair(PairsOf(gs))) <= multiset(Members(gs))
  {
    if |gs| > 0 {
      PairsOfUseMembersOnce(gs[1..]);
      var g := gs[0].1;
      var rest := Unpair(PairsOf(gs[1..]));
      UnpairAppend(PairUp(g), PairsOf(gs[1..]));
      assert Unpair(PairsOf(gs)) == Unpair(PairUp(g)) + rest;
      PairUpUsesOnce(g);
      assert multiset(Unpair(PairsOf(gs))) == multiset(Unpair(PairUp(g))) + multiset(rest);
      assert Members(gs) == g + Members(gs[1..]);
      assert multiset(Members(gs)) == multiset(g) + multiset(Members(gs[1..]));
    }
  }

  lemma PairUpUsesOnce<T>(g: seq<T>)
    ensures multiset(Unpair(PairUp(g))) <= multiset(g)
  {
    var m := 2 * (|g| / 2);
    PairUpConsecutive(g);
    assert g[..m] + g[m..] == g;
    assert multiset(g) == multiset(g[..m]) + multiset(g[m..]);
  }

  /** Pairs from groups all of whose members share their key's prefix are
      pairs of entries with the same prefix. */
  lemma {:induction false} PairsOfSamePrefix<T>(gs: Groups<T>, zip: T -> string)
    requires forall i, e :: 0 <= i < |gs| && e in gs[i].1 ==> Prefix(zip(e)) == gs[i].0
    ensures forall k :: 0 <= k < |PairsOf(gs)| ==> Prefix(zip(PairsOf(gs)[k].0)) == Prefix(zip(PairsOf(gs)[k].1))
  {
    if |gs| > 0 {
      PairsOfSamePrefix(gs[1..], zip);
      var g := gs[0].1;
      var here := PairUp(g);
      PairUpConsecutive(g);
      forall k | 0 <= k < |here|
        ensures Prefix(zip(here[k].0)) == gs[0].0 && Prefix(zip(here[k].1)) == gs[0].0
      {
        PairUpAt(g, k);
      }
      var all := PairsOf(gs);
      assert all == here + PairsOf(gs[1..]);
      forall k | 0 <= k < |all|
        ensures Prefix(zip(all[k].0)) == Prefix(zip(all[k].1))
      {
        if k >= |here| {
          assert all[k] == PairsOf(gs[1..])[k - |here|];
        }
      }
    }
  }

  /** Pair `k` of a group is its entries `2k` and `2k+1`. */
  lemma {:induction false} PairUpAt<T>(g: seq<T>, k: nat)
    requires k < |g| / 2
    ensures PairUp(g)[k] == (g[2 * k], g[2 * k + 1])
  {
    if k > 0 {
      PairUpAt(g[2..], k - 1);
    }
  }

  /** Both entries of every pair share the first two characters of their
      zip code, and no entry is used in more than one pair. */
  lemma GeneratePairsFacts<T>(entries: seq<T>, zip: T -> string)
    ensures forall k :: 0 <= k < |GeneratePairs(entries, zip)| ==>
      Prefix(zip(GeneratePairs(entries, zip)[k].0)) == Prefix(zip(GeneratePairs(entries, zip)[k].1))
    ensures multiset(Unpair(GeneratePairs(entries, zip))) <= multiset(entries)
  {
    var gs := GroupByPrefix(entries, zip);
    GroupByPrefixLookup(entries, zip);
    GroupByPrefixMembers(entries, zip);
    PairsOfUseMembersOnce(gs);
    forall i, e | 0 <= i < |gs| && e in gs[i].1
      ensures Prefix(zip(e)) == gs[i].0
    {
      LookupAt(gs, i);
      WithPrefixMembers(entries, zip, gs[i].0);
    }
    PairsOfSamePrefix(gs, zip);
  }

  /** With distinct keys, looking up a key finds its own group. */
  lemma {:induction false} LookupAt<T>(gs: Groups<T>, i: nat)
    requires DistinctKeys(gs) && i < |gs|
    ensures Lookup(gs, gs[i].0) == gs[i].1
  {
    if i > 0 {
      LookupAt(gs[1..], i - 1);
      KeyInAt(gs[1..], i - 1);
    }
  }

  lemma {:induction false} KeyInAt<T>(gs: Groups<T>, i: nat)
    requires i < |gs|
    ensures KeyIn(gs, gs[i].0)
  {
    if i > 0 {
      KeyInAt(gs[1..], i - 1);
    }
  }

  // ---------------------------------------------------------------- sampling loop

  /** `random.shuffle` of round `k`'s pairs, as a parameter: the random
      order is not modelled, only that it reorders. */
  type Shuffle<!T> = (nat, seq<(T, T)>) -> seq<(T, T)>

  /** Every round's shuffle is a permutation of the pairs it is given. */
  ghost predicate Shuffles<T(!new)>(shuffle: Shuffle<T>)
  {
    forall k, ps :: multiset(shuffle(k, ps)) == multiset(ps)
  }

  /** Both entries of a pair share the first two characters of their zip. */
  predicate SamePrefix<T>(zip: T -> string, p: (T, T))
  {
    Prefix(zip(p.0)) == Prefix(zip(p.1))
  }

  /** The sampling loop from round `round` on: each round's sample is
      paired off, the pairs shuffled and appended, until `count` pairs are
      collected or a sample comes back empty. The random draws are the
      samples themselves; the loop also ends when they run out. */
  function CollectPairs<T>(samples: seq<seq<T>>, zip: T -> string, shuffle: Shuffle<T>, count: nat,
                           round: nat, acc: seq<(T, T)>): seq<(T, T)>
    decreases |samples| - round
  {
    if |acc| >= count || round >= |samples| || |samples[round]| == 0 then acc
    else CollectPairs(samples, zip, shuffle, count, round + 1,
                      acc + shuffle(round, GeneratePairs(samples[round], zip)))
  }

  /** `get_random_address_pairs`: the collected pairs trimmed to `count`. */
  function RandomAddressPairs<T>(samples: seq<seq<T>>, zip: T -> string, shuffle: Shuffle<T>, count: nat): seq<(T, T)>
  {
    var all := CollectPairs(samples, zip, shuffle, count, 0, []);
    all[..if |all| < count then |all| else count]
  }

  /** Collecting only appends: what was collected stays in front, and the
      next round's shuffled pairs follow it when that round runs. */
  lemma {:induction false} CollectExtends<T>(samples: seq<seq<T>>, zip: T -> string, shuffle: Shuffle<T>, count: nat,
                                             round: nat, acc: seq<(T, T)>)
    ensures |acc| <= |CollectPairs(samples, zip, shuffle, count, round, acc)|
    ensures CollectPairs(samples, zip, shuffle, count, round, acc)[..|acc|] == acc
    ensures |acc| < count && round < |samples| && |samples[round]| > 0 ==>
      var next := acc + shuffle(round, GeneratePairs(samples[round], zip));
      |next| <= |CollectPairs(samples, zip, shuffle, count, round, acc)|
      && CollectPairs(samples, zip, shuffle, count, round, acc)[..|next|] == next
    decreases |samples| - round
  {
    if !(|acc| >= count || round >= |samples| || |samples[round]| == 0) {
      var next := acc + shuffle(round, GeneratePairs(samples[round], zip));
      CollectExtends(samples, zip, shuffle, count, round + 1, next);
      assert next[..|acc|] == acc;
    }
  }

  /** A shuffled pair is one of the pairs shuffled. */
  lemma ShuffledFrom<T(!new)>(shuffle: Shuffle<T>, k: nat, ps: seq<(T, T)>, x: (T, T))
    requires Shuffles(shuffle)
    requires x in shuffle(k, ps)
    ensures x in ps
  {
    assert multiset(shuffle(k, ps)) == multiset(ps);
    assert x in multiset(ps);
  }

  /** Every pair one sample yields shares its zip prefix. */
  lemma PairSamePrefix<T>(entries: seq<T>, zip: T -> string, x: (T, T))
    requires x in GeneratePairs(entries, zip)
    ensures SamePrefix(zip, x)
  {
    GeneratePairsFacts(entries, zip);
  }

  /** Every collected pair shares its zip prefix, when the pairs already
      collected do. */
  lemma {:induction false} CollectSamePrefix<T(!new)>(samples: seq<seq<T>>, zip: T -> string, shuffle: Shuffle<T>, count: nat,
                                                round: nat, acc: seq<(T, T)>)
    requires Shuffles(shuffle)
    requires forall x :: x in acc ==> SamePrefix(zip, x)
    ensures forall x :: x in CollectPairs(samples, zip, shuffle, count, round, acc) ==> SamePrefix(zip, x)
    decreases |samples| - round
  {
    if !(|acc| >= count || round >= |samples| || |samples[round]| == 0) {
      var pairs := GeneratePairs(samples[round], zip);
      var mixed := shuffle(round, pairs);
      var next := acc + mixed;
      forall x | x in next
        ensures SamePrefix(zip, x)
      {
        if x !in acc {
          ShuffledFrom(shuffle, round, pairs, x);
          PairSamePrefix(samples[round], zip, x);
        }
      }
      CollectSamePrefix(samples, zip, shuffle, count, round + 1, next);
    }
  }

  /** Samples that yield no pairs add nothing: from a round on which every
      remaining sample gives no pair, the loop ends with what it had. The
      source's loop, which draws a fresh sample every round for as long as
      it has too few pairs, never ends in that case. */
  lemma {:induction false} CollectNoPairs<T(!new)>(samples: seq<seq<T>>, zip: T -> string, shuffle: Shuffle<T>, count: nat,
                                             round: nat, acc: seq<(T, T)>)
    requires Shuffles(shuffle)
    requires forall k :: round <= k < |samples| ==> GeneratePairs(samples[k], zip) == []
    ensures CollectPairs(samples, zip, shuffle, count, round, acc) == acc
    decreases |samples| - round
  {
    if !(|acc| >= count || round >= |samples| || |samples[round]| == 0) {
      var mixed := shuffle(round, GeneratePairs(samples[round], zip));
      assert multiset(mixed) == multiset([]);
      assert mixed == [];
      assert acc + mixed == acc;
      CollectNoPairs(samples, zip, shuffle, count, round + 1, acc);
    }
  }

  /** At most `count` pairs are returned, exactly `count` when the loop
      collected that many; every pair shares its zip prefix; and when the
      first sample's pairs fit they come first, in some order. */
  lemma RandomAddressPairsFacts<T(!new)>(samples: seq<seq<T>>, zip: T -> string, shuffle: Shuffle<T>, count: nat)
    requires Shuffles(shuffle)
    ensures var r := RandomAddressPairs(samples, zip, shuffle, count);
      && |r| <= count
      && (|CollectPairs(samples, zip, shuffle, count, 0, [])| >= count ==> |r| == count)
      && (forall k :: 0 <= k < |r| ==> SamePrefix(zip, r[k]))
    ensures |samples| > 0 && |samples[0]| > 0 && count > 0 ==>
      var first := GeneratePairs(samples[0], zip);
      var r := RandomAddressPairs(samples, zip, shuffle, count);
      |first| <= count ==> |first| <= |r| && multiset(r[..|first|]) == multiset(first)
  {
    var all := CollectPairs(samples, zip, shuffle, count, 0, []);
    var r := RandomAddressPairs(samples, zip, shuffle, count);
    CollectSamePrefix(samples, zip, shuffle, count, 0, []);
    assert forall k :: 0 <= k < |r| ==> r[k] == all[k];
    if |samples| > 0 && |samples[0]| > 0 && count > 0 {
      var first := GeneratePairs(samples[0], zip);
      CollectExtends(samples, zip, shuffle, count, 0, []);
      var mixed := shuffle(0, first);
      assert [] + mixed == mixed;
      if |first| <= count {
        assert |mixed| == |first| by {
          assert |multiset(mixed)| == |multiset(first)|;
        }
        assert r[..|first|] == all[..|mixed|] == mixed;
      }
    }
  }
}
