/** The search keys the scraper walks through: every two-letter word over
    the query alphabet whose first letter is not a digit, in the order
    `itertools.product` produces them. */
module QueryKeys {
  import opened Common
  import opened Decimal

  /** `string.ascii_lowercase + string.digits + "äöüß"` */
  const Alphabet: string := "abcdefghijklmnopqrstuvwxyz0123456789\U{e4}\U{f6}\U{fc}\U{df}"

  /** The words `[c, d]` for `d` in `seconds`, in order. */
  function Row(c: char, seconds: string): (r: seq<string>)
    ensures |r| == |seconds|
    ensures forall j :: 0 <= j < |seconds| ==> r[j] == [c, seconds[j]]
  {
    seq(|seconds|, j requires 0 <= j < |seconds| => [c, seconds[j]])
  }

  /** `itertools.product(firsts, seconds)` joined into two-letter words. */
  function Product(firsts: string, seconds: string): seq<string>
  {
    if |firsts| == 0 then [] else Row(firsts[0], seconds) + Product(firsts[1..], seconds)
  }

  /** Drops the words whose first character is a digit, keeping the order. */
  function DropDigitLed(words: seq<string>): seq<string>
    requires forall i :: 0 <= i < |words| ==> |words[i]| >= 1
  {
    if |words| == 0 then []
    else (if IsDigit(words[0][0]) then [] else [words[0]]) + DropDigitLed(words[1..])
  }

  /** The characters of `s` that are not digits, in order. */
  function NonDigits(s: string): string
  {
    if |s| == 0 then [] else (if IsDigit(s[0]) then [] else [s[0]]) + NonDigits(s[1..])
  }

  lemma {:induction false} ProductWordLength(firsts: string, seconds: string)
    ensures forall i :: 0 <= i < |Product(firsts, seconds)| ==> |Product(firsts, seconds)[i]| == 2
  {
    if |firsts| > 0 {
      ProductWordLength(firsts[1..], seconds);
    }
  }

  /** The loop over `itertools.product` with the `continue` on a digit. */
  function EnumerateKeys(alphabet: string): seq<string>
  {
    ProductWordLength(alphabet, alphabet);
    DropDigitLed(Product(alphabet, alphabet))
  }

  lemma {:induction false} DropDigitLedAppend(a: seq<string>, b: seq<string>)
    requires forall i :: 0 <= i < |a| ==> |a[i]| >= 1
    requires forall i :: 0 <= i < |b| ==> |b[i]| >= 1
    ensures DropDigitLed(a + b) == DropDigitLed(a) + DropDigitLed(b)
  {
    if |a| == 0 {
      assert a + b == b;
    } else {
      assert (a + b)[1..] == a[1..] + b;
      DropDigitLedAppend(a[1..], b);
    }
  }

  lemma {:induction false} DropDigitLedRow(c: char, seconds: string)
    ensures DropDigitLed(Row(c, seconds)) == if IsDigit(c) then [] else Row(c, seconds)
    decreases |seconds|
  {
    if |seconds| > 0 {
      assert Row(c, seconds)[1..] == Row(c, seconds[1..]);
      DropDigitLedRow(c, seconds[1..]);
    }
  }

  /** Filtering the product equals the product over the non-digit first letters. */
  lemma {:induction false} FilterCommutes(firsts: string, seconds: string)
    ensures forall i :: 0 <= i < |Product(firsts, seconds)| ==> |Product(firsts, seconds)[i]| >= 1
    ensures DropDigitLed(Product(firsts, seconds)) == Product(NonDigits(firsts), seconds)
  {
    ProductWordLength(firsts, seconds);
    if |firsts| > 0 {
      ProductWordLength(firsts[1..], seconds);
      DropDigitLedAppend(Row(firsts[0], seconds), Product(firsts[1..], seconds));
      DropDigitLedRow(firsts[0], seconds);
      FilterCommutes(firsts[1..], seconds);
      var nd := NonDigits(firsts);
      if IsDigit(firsts[0]) {
        assert nd == NonDigits(firsts[1..]);
      } else {
        assert nd == [firsts[0]] + NonDigits(firsts[1..]);
        assert nd[0] == firsts[0] && nd[1..] == NonDigits(firsts[1..]);
        assert Product(nd, seconds) == Row(firsts[0], seconds) + Product(nd[1..], seconds);
      }
    }
  }

  lemma MulSucc(i: nat, n: nat)
    requires i > 0
    ensures i * n == n + (i - 1) * n
  {
  }

  lemma MulBound(i: nat, j: nat, m: nat, n: nat)
    requires i < m && j < n
    ensures i * n + j < m * n
  {
    assert i * n <= (m - 1) * n by { MulMono(i, m - 1, n); }
    MulSucc(m, n);
  }

  lemma MulMono(a: nat, b: nat, n: nat)
    requires a <= b
    ensures a * n <= b * n
  {
  }

  lemma {:induction false} ProductLength(firsts: string, seconds: string)
    ensures |Product(firsts, seconds)| == |firsts| * |seconds|
  {
    if |firsts| > 0 {
      ProductLength(firsts[1..], seconds);
      MulSucc(|firsts|, |seconds|);
    }
  }

  /** Product order: word number `i * |seconds| + j` is `firsts[i]` then `seconds[j]`. */
  lemma {:induction false} ProductIndex(firsts: string, seconds: string, i: nat, j: nat)
    requires i < |firsts| && j < |seconds|
    ensures |Product(firsts, seconds)| == |firsts| * |seconds|
    ensures i * |seconds| + j < |Product(firsts, seconds)|
    ensures Product(firsts, seconds)[i * |seconds| + j] == [firsts[i], seconds[j]]
  {
    ProductLength(firsts, seconds);
    MulBound(i, j, |firsts|, |seconds|);
    var n := |seconds|;
    if i > 0 {
      ProductIndex(firsts[1..], seconds, i - 1, j);
      MulSucc(i, n);
      assert firsts[i] == firsts[1..][i - 1];
    }
  }

  /** The key list is the product of the non-digit letters with the whole
      alphabet, in lexicographic product order: key number `i * |alphabet| + j`
      is the i-th non-digit letter followed by the j-th letter. */
  lemma KeysInProductOrder(alphabet: string, i: nat, j: nat)
    requires i < |NonDigits(alphabet)| && j < |alphabet|
    ensures |EnumerateKeys(alphabet)| == |NonDigits(alphabet)| * |alphabet|
    ensures i * |alphabet| + j < |EnumerateKeys(alphabet)|
    ensures EnumerateKeys(alphabet)[i * |alphabet| + j] == [NonDigits(alphabet)[i], alphabet[j]]
  {
    FilterCommutes(alphabet, alphabet);
    ProductIndex(NonDigits(alphabet), alphabet, i, j);
  }

  lemma {:induction false} ProductMembers(firsts: string, seconds: string)
    ensures forall w :: w in Product(firsts, seconds) <==>
      |w| == 2 && w[0] in firsts && w[1] in seconds
  {
    if |firsts| > 0 {
      ProductMembers(firsts[1..], seconds);
      var p := Product(firsts, seconds);
      forall w | |w| == 2 && w[0] in firsts && w[1] in seconds
        ensures w in p
      {
        if w[0] == firsts[0] {
          var j :| 0 <= j < |seconds| && seconds[j] == w[1];
          assert w == [firsts[0], seconds[j]] == Row(firsts[0], seconds)[j];
        } else {
          assert w[0] in firsts[1..];
        }
      }
    }
  }

  /** A word is a key iff it has two alphabet letters and does not start with a digit. */
  lemma KeysMembership(alphabet: string)
    ensures forall w :: w in EnumerateKeys(alphabet) <==>
      |w| == 2 && w[0] in alphabet && w[1] in alphabet && !IsDigit(w[0])
  {
    FilterCommutes(alphabet, alphabet);
    var firsts := NonDigits(alphabet);
    ProductMembers(firsts, alphabet);
    NonDigitsMembers(alphabet);
  }

  lemma {:induction false} NonDigitsMembers(s: string)
    ensures forall c :: c in NonDigits(s) <==> c in s && !IsDigit(c)
  {
    if |s| > 0 {
      NonDigitsMembers(s[1..]);
      assert s == [s[0]] + s[1..];
    }
  }

  lemma {:induction false} NonDigitsAppend(a: string, b: string)
    ensures NonDigits(a + b) == NonDigits(a) + NonDigits(b)
  {
    if |a| == 0 {
      assert a + b == b;
    } else {
      assert (a + b)[1..] == a[1..] + b;
      NonDigitsAppend(a[1..], b);
    }
  }

  lemma {:induction false} NonDigitsOfLetters(s: string)
    requires forall i :: 0 <= i < |s| ==> !IsDigit(s[i])
    ensures NonDigits(s) == s
  {
    if |s| > 0 {
      NonDigitsOfLetters(s[1..]);
    }
  }

  lemma {:induction false} NonDigitsOfDigits(s: string)
    requires AllDigits(s)
    ensures NonDigits(s) == []
  {
    if |s| > 0 {
      NonDigitsOfDigits(s[1..]);
    }
  }

  lemma AlphabetParts()
    ensures Alphabet == "abcdefghijklmnopqrstuvwxyz" + "0123456789" + "\U{e4}\U{f6}\U{fc}\U{df}"
    ensures forall i :: 0 <= i < 26 ==> !IsDigit("abcdefghijklmnopqrstuvwxyz"[i])
    ensures forall i :: 0 <= i < 4 ==> !IsDigit("\U{e4}\U{f6}\U{fc}\U{df}"[i])
    ensures AllDigits("0123456789")
  {
  }

  lemma {:induction false} NonDigitCount(letters: string, digits: string, umlauts: string)
    requires forall i :: 0 <= i < |letters| ==> !IsDigit(letters[i])
    requires forall i :: 0 <= i < |umlauts| ==> !IsDigit(umlauts[i])
    requires AllDigits(digits)
    ensures NonDigits(letters + digits + umlauts) == letters + umlauts
  {
    NonDigitsAppend(letters + digits, umlauts);
    NonDigitsAppend(letters, digits);
    NonDigitsOfLetters(letters);
    NonDigitsOfDigits(digits);
    NonDigitsOfLetters(umlauts);
  }

  lemma KeyCountOf(letters: string, digits: string, umlauts: string)
    requires forall i :: 0 <= i < |letters| ==> !IsDigit(letters[i])
    requires forall i :: 0 <= i < |umlauts| ==> !IsDigit(umlauts[i])
    requires AllDigits(digits)
    ensures |EnumerateKeys(letters + digits + umlauts)|
         == (|letters| + |umlauts|) * (|letters| + |digits| + |umlauts|)
  {
    NonDigitCount(letters, digits, umlauts);
    KeysLength(letters + digits + umlauts);
  }

  lemma AlphabetNonDigits(alphabet: string)
    requires alphabet == Alphabet
    ensures |NonDigits(alphabet)| == 30 && |alphabet| == 40
  {
    AlphabetParts();
    var letters, digits, umlauts := "abcdefghijklmnopqrstuvwxyz", "0123456789", "\U{e4}\U{f6}\U{fc}\U{df}";
    NonDigitCount(letters, digits, umlauts);
  }

  /** With the scraper's 40-letter alphabet there are 30 * 40 = 1200 keys. */
  lemma KeyCount(alphabet: string)
    requires alphabet == Alphabet
    ensures |EnumerateKeys(alphabet)| == 1200
  {
    AlphabetNonDigits(alphabet);
    KeysLength(alphabet);
  }

  lemma KeysLength(alphabet: string)
    ensures |EnumerateKeys(alphabet)| == |NonDigits(alphabet)| * |alphabet|
  {
    FilterCommutes(alphabet, alphabet);
    ProductLength(NonDigits(alphabet), alphabet);
  }

  /** The alphabet {a, b, c, 1} yields every key except those starting with 1. */
  lemma SmallAlphabetExample()
    ensures EnumerateKeys("abc1") == ["aa", "ab", "ac", "a1", "ba", "bb", "bc", "b1", "ca", "cb", "cc", "c1"]
  {
    FilterCommutes("abc1", "abc1");
    NonDigitsAppend("abc", "1");
    NonDigitsOfLetters("abc");
    assert NonDigits("abc1") == "abc";
    ProductOfThree("abc", "abc1");
    SmallRow('a');
    SmallRow('b');
    SmallRow('c');
    assert Row('a', "abc1") + Row('b', "abc1") + Row('c', "abc1") == ["aa", "ab", "ac", "a1", "ba", "bb", "bc", "b1", "ca", "cb", "cc", "c1"];
  }

  /** The row of `x` over {a, b, c, 1}. */
  lemma SmallRow(x: char)
    ensures Row(x, "abc1") == [[x, 'a'], [x, 'b'], [x, 'c'], [x, '1']]
  {
    assert |Row(x, "abc1")| == 4;
  }

  lemma ProductOfThree(firsts: string, seconds: string)
    requires |firsts| == 3
    ensures Product(firsts, seconds) == Row(firsts[0], seconds) + Row(firsts[1], seconds) + Row(firsts[2], seconds)
  {
    var f1, f2 := firsts[1..], firsts[2..];
    assert f1[0] == firsts[1] && f1[1..] == f2;
    assert f2[0] == firsts[2] && f2[1..] == [];
    var r0, r1, r2 := Row(firsts[0], seconds), Row(firsts[1], seconds), Row(firsts[2], seconds);
    assert Product(f2, seconds) == r2 + Product([], seconds) == r2;
    assert Product(f1, seconds) == r1 + r2;
    ConcatAssoc(r0, r1, r2);
  }
}
