/**
  Numeric storage prefixes (s3_prefix_strategy.py): the number of the entry in the given base, zero-padded
  and written backwards, so that neighbouring entries differ in their first characters.
 */
module PrefixStrategies {
  import opened Results
  import opened Arithmetic

  /** Ends at the least positive length whose prefixes suffice for all entries. */
  method CalculatePrefixLength(base: nat, prefixCount: nat) returns (prefixLength: nat)
    requires base >= 2 && prefixCount >= 1
    ensures prefixLength >= 1 && Pow(base, prefixLength) >= prefixCount
    ensures forall l :: 1 <= l < prefixLength ==> Pow(base, l) < prefixCount
  {
    prefixLength := 1;
    var size := base;
    while size < prefixCount
      invariant prefixLength >= 1 && size == Pow(base, prefixLength) >= 1
      invariant forall l :: 1 <= l < prefixLength ==> Pow(base, l) < prefixCount
      decreases prefixCount - size
    {
      MulMonotone(2, base, size);
      assert Pow(base, prefixLength + 1) == base * Pow(base, prefixLength);
      prefixLength := prefixLength + 1;
      size := size * base;
    }
  }

  // ---------- formatting ----------

  const HEX_DIGITS := "0123456789abcdef"

  function Digit(d: nat): char
    requires d < 16
  {
    HEX_DIGITS[d]
  }

  /** `format(n, "b")`, `format(n, "d")`, `format(n, "x")`: most significant digit first. */
  function Digits(n: nat, base: nat): (s: string)
    requires 2 <= base <= 16
    ensures s != ""
  {
    if n < base then [Digit(n)] else Digits(n / base, base) + [Digit(n % base)]
  }

  function Zeros(n: nat): string {
    seq(n, _ => '0')
  }

  /** `_format_number`: padded with zeros on the left. */
  function FormatNumber(n: nat, base: nat, length: nat): string
    requires 2 <= base <= 16
  {
    var s := Digits(n, base);
    if |s| < length then Zeros(length - |s|) + s else s
  }

  /** `s[::-1]`. */
  function Reverse(s: string): (r: string)
    ensures |r| == |s|
  {
    if s == "" then "" else [s[|s| - 1]] + Reverse(s[..|s| - 1])
  }

  /** The reference form: digit `k` is the `k`-th digit of `n`, least significant first. */
  function Backwards(n: nat, base: nat, length: nat): (s: string)
    requires 2 <= base <= 16
    ensures |s| == length
    decreases length
  {
    if length == 0 then "" else [Digit(n % base)] + Backwards(n / base, base, length - 1)
  }

  lemma FormatSmall(n: nat, base: nat, length: nat)
    requires 2 <= base <= 16 && length >= 2 && n < base
    ensures FormatNumber(n, base, length) == FormatNumber(0, base, length - 1) + [Digit(n)]
  {
    assert Zeros(length - 1) == Zeros(length - 2) + "0";
    if length == 2 { assert Zeros(0) == ""; }
  }

  lemma PadLonger(d: string, c: char, length: nat)
    requires |d| + 1 < length
    ensures Zeros(length - 1 - |d|) + (d + [c]) == (Zeros(length - 1 - |d|) + d) + [c]
  {
  }

  lemma FormatStep(n: nat, base: nat, length: nat)
    requires 2 <= base <= 16 && length >= 2
    ensures FormatNumber(n, base, length) == FormatNumber(n / base, base, length - 1) + [Digit(n % base)]
  {
    if n < base {
      DivModUnique(n, base, 0, n);
      FormatSmall(n, base, length);
    } else {
      hide Digit, Zeros;
      var d, c := Digits(n / base, base), Digit(n % base);
      assert Digits(n, base) == d + [c];
      if |d| + 1 < length { PadLonger(d, c, length); }
    }
  }

  /** A number that fits is written backwards digit by digit, with exactly `length` digits. */
  lemma {:induction false} ReversedIsBackwards(n: nat, base: nat, length: nat)
    requires 2 <= base <= 16 && length >= 1 && n < Pow(base, length)
    ensures Reverse(FormatNumber(n, base, length)) == Backwards(n, base, length)
    decreases length
  {
    hide Digits, Digit, Zeros, FormatNumber, Pow;
    PowStep(base, length);
    DivisionFits(n, base, Pow(base, length - 1));
    if length == 1 {
      PowZero(base);
      OneDigit(n, base);
    } else {
      ReversedIsBackwards(n / base, base, length - 1);
      FormatStep(n, base, length);
      ReverseLast(FormatNumber(n / base, base, length - 1), Digit(n % base));
    }
  }

  lemma ReverseLast(s: string, c: char)
    ensures Reverse(s + [c]) == [c] + Reverse(s)
  {
    assert (s + [c])[..|s|] == s;
  }

  lemma OneDigit(n: nat, base: nat)
    requires 2 <= base <= 16 && n < base
    ensures Reverse(FormatNumber(n, base, 1)) == Backwards(n, base, 1)
  {
    hide Digit;
    DivModUnique(n, base, 0, n);
    assert FormatNumber(n, base, 1) == [Digit(n)];
    ReverseLast("", Digit(n));
    assert "" + [Digit(n)] == [Digit(n)];
  }

  // ---------- heads ----------

  lemma {:induction false} BackwardsHead(n: nat, base: nat, length: nat, k: nat)
    requires 2 <= base <= 16 && k <= length
    ensures Backwards(n, base, length)[..k] == Backwards(n, base, k)
    decreases k
  {
    if k > 0 {
      BackwardsHead(n / base, base, length - 1, k - 1);
    }
  }

  lemma DigitsDiffer(a: nat, b: nat)
    requires a < 16 && b < 16
    ensures Digit(a) == Digit(b) <==> a == b
  {
  }

  /** The first `k` characters spell `n` modulo `base` to the `k`, and nothing else. */
  lemma {:induction false} HeadsEqualIffCongruent(m: nat, n: nat, base: nat, k: nat)
    requires 2 <= base <= 16
    ensures Backwards(m, base, k) == Backwards(n, base, k) <==> Congruent(m, n, Pow(base, k))
    decreases k
  {
    if k > 0 {
      hide Backwards, Pow, Congruent;
      PowStep(base, k);
      PowPositive(base, k - 1);
      HeadsEqualIffCongruent(m / base, n / base, base, k - 1);
      CongruentStep(m, n, base, Pow(base, k - 1));
      BackwardsEqual(m, n, base, k);
    } else {
      assert Pow(base, 0) == 1;
    }
  }

  lemma BackwardsEqual(m: nat, n: nat, base: nat, k: nat)
    requires 2 <= base <= 16 && k > 0
    ensures Backwards(m, base, k) == Backwards(n, base, k) <==>
            Congruent(m, n, base) && Backwards(m / base, base, k - 1) == Backwards(n / base, base, k - 1)
  {
    hide Digit;
    DigitsDiffer(m % base, n % base);
    SameCons(Digit(m % base), Backwards(m / base, base, k - 1), Digit(n % base), Backwards(n / base, base, k - 1));
  }

  lemma SameCons(x: char, a: string, y: char, b: string)
    ensures [x] + a == [y] + b <==> x == y && a == b
  {
    if [x] + a == [y] + b {
      SameParts([x], a, [y], b);
    }
  }

  lemma PowZero(b: nat)
    ensures Pow(b, 0) == 1
  {
  }

  lemma PowStep(b: nat, e: nat)
    requires e > 0
    ensures Pow(b, e) == b * Pow(b, e - 1)
  {
  }

  // ---------- the prefix map ----------

  /** `_generate_prefix_map`. */
  method GeneratePrefixMap(base: nat, prefixCount: nat, minPrefixLength: nat) returns (prefixes: seq<string>)
    requires 2 <= base <= 16 && prefixCount >= 1 && minPrefixLength >= 1
    ensures |prefixes| == prefixCount
    ensures exists length: nat ::
              && IsPrefixMap(prefixes, base, length) && length >= minPrefixLength
              && (length == minPrefixLength || Pow(base, length - 1) < prefixCount)
  {
    var required := CalculatePrefixLength(base, prefixCount);
    var length := if required >= minPrefixLength then required else minPrefixLength;
    PowGrows(base, required, length);
    prefixes := seq(prefixCount, i requires 0 <= i < prefixCount => Reverse(FormatNumber(i, base, length)));
    forall i | 0 <= i < prefixCount ensures prefixes[i] == Backwards(i, base, length) {
      ReversedIsBackwards(i, base, length);
    }
    assert Pow(base, 0) == 1;
    assert IsPrefixMap(prefixes, base, length);
  }

  /** Entry `i` is `i` written backwards with `length` digits, and all entries fit. */
  ghost predicate IsPrefixMap(prefixes: seq<string>, base: nat, length: nat) {
    && 2 <= base <= 16 && length >= 1 && |prefixes| <= Pow(base, length)
    && forall i :: 0 <= i < |prefixes| ==> prefixes[i] == Backwards(i, base, length)
  }

  /** Any `base^k` consecutive entries differ in their first `k` characters. */
  lemma NeighboursDifferInHead(prefixes: seq<string>, base: nat, length: nat, k: nat, i: nat, j: nat)
    requires IsPrefixMap(prefixes, base, length) && k <= length
    requires i < j < |prefixes| && j < i + Pow(base, k)
    ensures |prefixes[i]| == |prefixes[j]| == length && prefixes[i][..k] != prefixes[j][..k]
  {
    BackwardsHead(i, base, length, k);
    BackwardsHead(j, base, length, k);
    HeadsEqualIffCongruent(i, j, base, k);
    PowPositive(base, k);
    ModDistinct(i, j, Pow(base, k));
  }

  /** All entries are distinct. */
  lemma PrefixesDistinct(prefixes: seq<string>, base: nat, length: nat, i: nat, j: nat)
    requires IsPrefixMap(prefixes, base, length) && i < j < |prefixes|
    ensures prefixes[i] != prefixes[j]
  {
    NeighboursDifferInHead(prefixes, base, length, length, i, j);
    assert prefixes[i][..length] == prefixes[i] && prefixes[j][..length] == prefixes[j];
  }

  /** How many entries start with `head`. */
  function HeadCount(prefixes: seq<string>, head: string): nat {
    if prefixes == [] then 0
    else
      var last := prefixes[|prefixes| - 1];
      HeadCount(prefixes[..|prefixes| - 1], head) + if head <= last then 1 else 0
  }

  /** The entries spread evenly: every possible head occurs `n / base^k` times, or once more. */
  lemma {:induction false} HeadsSpreadEvenly(prefixes: seq<string>, base: nat, length: nat, k: nat, r: nat)
    requires IsPrefixMap(prefixes, base, length) && k <= length && r < Pow(base, k)
    ensures var m := Pow(base, k);
            HeadCount(prefixes, Backwards(r, base, k)) == |prefixes| / m + if r < |prefixes| % m then 1 else 0
    decreases |prefixes|
  {
    hide Backwards, Pow;
    var m := Pow(base, k);
    PowPositive(base, k);
    if prefixes == [] {
      DivModUnique(0, m, 0, 0);
    } else {
      var n := |prefixes| - 1;
      var front := prefixes[..n];
      HeadsSpreadEvenly(front, base, length, k, r);
      BackwardsHead(n, base, length, k);
      HeadsEqualIffCongruent(r, n, base, k);
      DivModUnique(r, m, 0, r);
      var head := Backwards(r, base, k);
      assert head <= prefixes[n] <==> head == prefixes[n][..k];
      CountStep(n, m, r);
    }
  }

  // ---------- full prefixes ----------

  function Value(s: string): nat {
    if s == "" then 0 else Value(s[..|s| - 1]) * 10 + (if '0' <= s[|s| - 1] <= '9' then (s[|s| - 1] - '0') as nat else 0)
  }

  lemma {:induction false} ValueOfDigits(n: nat)
    ensures Value(Digits(n, 10)) == n
  {
    if n < 10 {
      assert [Digit(n)][..0] == "";
    } else {
      ValueOfDigits(n / 10);
      var s := Digits(n / 10, 10);
      assert (s + [Digit(n % 10)])[..|s|] == s;
    }
  }

  function EpochSuffix(epoch: Option<int>): string {
    if epoch.None? then ""
    else "epoch_" + (if epoch.value < 0 then "-" + Digits(-epoch.value, 10) else Digits(epoch.value, 10)) + "/"
  }

  /** `generate_prefix`. */
  function GeneratePrefix(prefixes: seq<string>, epoch: Option<int>, rank: nat): string
    requires prefixes != []
  {
    prefixes[rank % |prefixes|] + ("/" + EpochSuffix(epoch) + "__" + (Digits(rank, 10) + "_"))
  }

  /** Different ranks never share a full prefix, whether or not their map entries coincide. */
  lemma FullPrefixesInjective(prefixes: seq<string>, base: nat, length: nat, epoch: Option<int>, a: nat, b: nat)
    requires IsPrefixMap(prefixes, base, length) && prefixes != []
    ensures GeneratePrefix(prefixes, epoch, a) == GeneratePrefix(prefixes, epoch, b) <==> a == b
  {
    hide Digits, EpochSuffix, Backwards;
    if GeneratePrefix(prefixes, epoch, a) == GeneratePrefix(prefixes, epoch, b) {
      var middle := "/" + EpochSuffix(epoch) + "__";
      var x, y := prefixes[a % |prefixes|], prefixes[b % |prefixes|];
      SameParts(x, middle + (Digits(a, 10) + "_"), y, middle + (Digits(b, 10) + "_"));
      SameParts(middle, Digits(a, 10) + "_", middle, Digits(b, 10) + "_");
      SameEnds(Digits(a, 10), Digits(b, 10), '_');
      ValueOfDigits(a);
      ValueOfDigits(b);
    }
  }

  /** The digits are the usual ones, in lower case. */
  lemma DigitsAreUsual(d: nat)
    requires d < 16
    ensures Digit(d) == if d < 10 then '0' + d as char else 'a' + (d - 10) as char
  {
  }

  /** `n` without its last `j` digits. */
  function Shifted(n: nat, base: nat, j: nat): nat
    requires base >= 2
  {
    if j == 0 then n else Shifted(n / base, base, j - 1)
  }

  lemma {:induction false} ShiftedIsQuotient(n: nat, base: nat, j: nat)
    requires base >= 2
    ensures Pow(base, j) > 0 && Shifted(n, base, j) == n / Pow(base, j)
    decreases j
  {
    PowPositive(base, j);
    if j == 0 {
      DivModUnique(n, 1, n, 0);
    } else {
      ShiftedIsQuotient(n / base, base, j - 1);
      DivisionTwice(n, base, Pow(base, j - 1));
    }
  }

  lemma {:induction false} CharacterAt(n: nat, base: nat, length: nat, j: nat)
    requires 2 <= base <= 16 && j < length
    ensures Backwards(n, base, length)[j] == Digit(Shifted(n, base, j) % base)
    decreases j
  {
    hide Digit;
    if j > 0 { CharacterAt(n / base, base, length - 1, j - 1); }
  }

  /** Character `j` of an entry is the digit of its rank for `base` to the `j`. */
  lemma EntryCharacter(n: nat, base: nat, length: nat, j: nat)
    requires 2 <= base <= 16 && j < length
    ensures Pow(base, j) > 0 && Backwards(n, base, length)[j] == Digit(n / Pow(base, j) % base)
  {
    hide Digit, Backwards, Pow, Shifted;
    ShiftedIsQuotient(n, base, j);
    CharacterAt(n, base, length, j);
  }

  lemma DivisionTwice(n: nat, a: nat, b: nat)
    requires a > 0 && b > 0
    ensures a * b > 0 && n / a / b == n / (a * b)
  {
    var q, r := n / a, n % a;
    var u, w := q / b, q % b;
    assert n == q * a + r;
    assert q == u * b + w;
    NestedRemainder(n, a, b, q, r, u, w);
    DivModUnique(n, a * b, u, w * a + r);
  }

  lemma NestedRemainder(n: nat, a: nat, b: nat, q: nat, r: nat, u: nat, w: nat)
    requires n == q * a + r && r < a && q == u * b + w && w < b
    ensures a * b > 0 && n == u * (a * b) + (w * a + r) && 0 <= w * a + r < a * b
  {
    MulDistributes(u * b, w, a);
    MulAssociates(u, b, a);
    MulMonotone(w + 1, b, a);
    MulDistributes(w, 1, a);
    MulMonotone(0, w, a);
  }

  /** The full prefix begins with the map's entry for the rank, and a slash. */
  lemma FullPrefixBegins(prefixes: seq<string>, base: nat, length: nat, epoch: Option<int>, rank: nat)
    requires IsPrefixMap(prefixes, base, length) && prefixes != []
    ensures Backwards(rank % |prefixes|, base, length) + "/" <= GeneratePrefix(prefixes, epoch, rank)
    ensures rank < |prefixes| ==> prefixes[rank] + "/" <= GeneratePrefix(prefixes, epoch, rank)
  {
    hide Backwards, Digits, EpochSuffix;
    var entry := prefixes[rank % |prefixes|];
    var tail := EpochSuffix(epoch) + "__" + (Digits(rank, 10) + "_");
    assert "/" + EpochSuffix(epoch) + "__" + (Digits(rank, 10) + "_") == "/" + tail;
    assert entry + ("/" + tail) == (entry + "/") + tail;
    if rank < |prefixes| { DivModUnique(rank, |prefixes|, 0, rank); }
  }

  lemma {:induction false} DigitsAreDigits(n: nat)
    ensures forall c <- Digits(n, 10) :: '0' <= c <= '9'
  {
    if n >= 10 { DigitsAreDigits(n / 10); }
  }

  lemma SlashSplit(a: string, b: string)
    ensures (a + "/" + b)[0] == if a == "" then '/' else a[0]
    ensures (a + "/" + b)[1..] == if a == "" then b else a[1..] + "/" + b
  {
  }

  /** What is in front of the first slash is determined. */
  lemma {:induction false} BeforeTheSlash(a: string, b: string, c: string, d: string)
    requires a + "/" + b == c + "/" + d && '/' !in a && '/' !in c
    ensures a == c && b == d
  {
    SlashSplit(a, b);
    SlashSplit(c, d);
    assert a == "" || a[0] in a;
    assert c == "" || c[0] in c;
    if a != "" {
      BeforeTheSlash(a[1..], b, c[1..], d);
      assert a == [a[0]] + a[1..] && c == [c[0]] + c[1..];
    }
  }

  function Signed(n: int): string {
    if n < 0 then "-" + Digits(-n, 10) else Digits(n, 10)
  }

  lemma SignedInjective(a: int, b: int)
    requires Signed(a) == Signed(b)
    ensures a == b
  {
    var x, y := if a < 0 then -a else a, if b < 0 then -b else b;
    DigitsAreDigits(x);
    DigitsAreDigits(y);
    ValueOfDigits(x);
    ValueOfDigits(y);
    assert Digits(x, 10)[0] in Digits(x, 10) && Digits(y, 10)[0] in Digits(y, 10);
    assert a < 0 ==> Signed(a)[0] == '-' && Signed(a)[1..] == Digits(x, 10);
    assert b < 0 ==> Signed(b)[0] == '-' && Signed(b)[1..] == Digits(y, 10);
  }

  lemma SignedHasNoSlash(n: int)
    ensures '/' !in Signed(n)
  {
    DigitsAreDigits(if n < 0 then -n else n);
  }

  /** An epoch part and what follows it, which begins with an underscore. */
  lemma EpochTells(epoch: Option<int>, end: string, epoch': Option<int>, end': string)
    requires EpochSuffix(epoch) + end == EpochSuffix(epoch') + end'
    requires end != "" && end[0] == '_' && end' != "" && end'[0] == '_'
    ensures epoch == epoch' && end == end'
  {
    hide EpochSuffix;
    EpochShape(epoch, end);
    EpochShape(epoch', end');
    if epoch.Some? && epoch'.Some? {
      SameParts("epoch_", Signed(epoch.value) + "/" + end, "epoch_", Signed(epoch'.value) + "/" + end');
      SignedHasNoSlash(epoch.value);
      SignedHasNoSlash(epoch'.value);
      BeforeTheSlash(Signed(epoch.value), end, Signed(epoch'.value), end');
      SignedInjective(epoch.value, epoch'.value);
    }
  }

  lemma EpochShape(epoch: Option<int>, end: string)
    requires end != "" && end[0] == '_'
    ensures EpochSuffix(epoch) + end ==
            if epoch.None? then end else "epoch_" + (Signed(epoch.value) + "/" + end)
    ensures (EpochSuffix(epoch) + end)[0] == if epoch.None? then '_' else 'e'
  {
    if epoch.Some? {
      SuffixShape(epoch.value);
      assert "epoch_" + (Signed(epoch.value) + "/") + end == "epoch_" + (Signed(epoch.value) + "/" + end);
    } else {
      assert "" + end == end;
    }
  }

  /** The part behind the entry tells the epoch and the rank. */
  lemma TailInjective(epoch: Option<int>, a: nat, epoch': Option<int>, b: nat)
    requires EpochSuffix(epoch) + "__" + (Digits(a, 10) + "_") == EpochSuffix(epoch') + "__" + (Digits(b, 10) + "_")
    ensures epoch == epoch' && a == b
  {
    hide Digits, EpochSuffix;
    var end, end' := "__" + (Digits(a, 10) + "_"), "__" + (Digits(b, 10) + "_");
    assert EpochSuffix(epoch) + end == EpochSuffix(epoch) + "__" + (Digits(a, 10) + "_");
    assert EpochSuffix(epoch') + end' == EpochSuffix(epoch') + "__" + (Digits(b, 10) + "_");
    EpochTells(epoch, end, epoch', end');
    SameParts("__", Digits(a, 10) + "_", "__", Digits(b, 10) + "_");
    SameEnds(Digits(a, 10), Digits(b, 10), '_');
    ValueOfDigits(a);
    ValueOfDigits(b);
  }

  lemma SuffixShape(epoch: int)
    ensures EpochSuffix(Some(epoch)) == "epoch_" + (Signed(epoch) + "/")
  {
  }

  /** Full prefixes agree exactly for the same rank in the same epoch, or in none. */
  lemma FullPrefixesTellEpochs(prefixes: seq<string>, base: nat, length: nat, epoch: Option<int>, a: nat,
                               epoch': Option<int>, b: nat)
    requires IsPrefixMap(prefixes, base, length) && prefixes != []
    ensures GeneratePrefix(prefixes, epoch, a) == GeneratePrefix(prefixes, epoch', b) <==> a == b && epoch == epoch'
  {
    hide Digits, EpochSuffix, Backwards;
    if GeneratePrefix(prefixes, epoch, a) == GeneratePrefix(prefixes, epoch', b) {
      var tail := EpochSuffix(epoch) + "__" + (Digits(a, 10) + "_");
      var tail' := EpochSuffix(epoch') + "__" + (Digits(b, 10) + "_");
      assert "/" + EpochSuffix(epoch) + "__" + (Digits(a, 10) + "_") == "/" + tail;
      assert "/" + EpochSuffix(epoch') + "__" + (Digits(b, 10) + "_") == "/" + tail';
      SameParts(prefixes[a % |prefixes|], "/" + tail, prefixes[b % |prefixes|], "/" + tail');
      SameParts("/", tail, "/", tail');
      TailInjective(epoch, a, epoch', b);
    }
  }

  lemma SameParts(a: string, b: string, c: string, d: string)
    requires a + b == c + d && |a| == |c|
    ensures a == c && b == d
  {
    assert a == (a + b)[..|a|] && b == (a + b)[|a|..];
    assert c == (c + d)[..|c|] && d == (c + d)[|c|..];
  }

  lemma SameEnds(a: string, b: string, last: char)
    requires a + [last] == b + [last]
    ensures a == b
  {
    assert a == (a + [last])[..|a|] && b == (b + [last])[..|b|];
  }
}
