/** The orchestrator of lib/structuredEncryptDecrypt.js: before the cipher
    runs, the dataset's `passthrough_priorities` cut a prefix and a suffix
    off the text (by position before the passthrough rule has run, by count
    of non-passthrough characters after it) and trim the rest into the
    characters to encrypt and a placeholder template. */
module Structured {
  import opened Wrappers
  import opened Bn
  import opened StrUtils
  import opened Template
  import opened Recode

  // ---------------------------------------------------------------------
  // parsePrefix and parseSuffix: slicing the raw text

  /** parsePrefix(arr, k): `[arr.slice(0, k), arr.slice(k)]`. Both slices
      normalise k the same way (a negative k counts from the end, a k past
      the end is clamped), so the two parts always make up arr. */
  function ParsePrefix(arr: string, k: int): (r: (string, string))
    ensures r.0 + r.1 == arr
    ensures 0 <= k <= |arr| ==> |r.0| == k
    ensures k > |arr| ==> r.0 == arr
  {
    var c := SubstrStart(|arr|, k);
    (arr[..c], arr[c..])
  }

  /** parseSuffix(arr, k): `[arr.slice(|arr| - k), arr.slice(0, |arr| - k)]`:
      the suffix first, then the rest. */
  function ParseSuffix(arr: string, k: int): (r: (string, string))
    ensures r.1 + r.0 == arr
    ensures 0 <= k <= |arr| ==> |r.0| == k
  {
    var c := SubstrStart(|arr|, |arr| - k);
    (arr[c..], arr[..c])
  }

  /** A suffix length beyond the text does not take the whole text: the
      negative slice start counts back from the end again. */
  lemma ParseSuffixOverlong()
    ensures ParseSuffix("abc", 4) == ("c", "ab")
  {
    assert "abc"[2..] == "c";
    assert "abc"[..2] == "ab";
  }

  // ---------------------------------------------------------------------
  // parsePrefixTrimmed and parseSuffixTrimmed: cutting by count

  /** `arr.shift()` on the array left behind. */
  function Tail<T>(s: seq<T>): seq<T>
  {
    if |s| > 0 then s[1..] else s
  }

  /** `arr.pop()` on the array left behind. */
  function Init<T>(s: seq<T>): seq<T>
  {
    if |s| > 0 then s[..|s| - 1] else s
  }

  /** How many characters a cut of n takes from a text of length len. */
  function Taken(n: int, len: nat): nat
  {
    if n <= 0 then 0 else if n < len then n else len
  }

  /** Is the template slot a passthrough character? (`passthrough.has(ch)`,
      false for undefined.) */
  predicate IsPass(c: Cell, pass: set<char>)
  {
    c.Some? && c.value in pass
  }

  /** parsePrefixTrimmed(trimmed, formatted, n, passthrough): take template
      slots from the front until n non-passthrough slots are taken; a
      passthrough slot goes to the prefix as it is, any other slot is
      replaced by the next trimmed character (undefined when none is left).
      Gives the prefix and what remains of trimmed and of the template. */
  function PrefixTrimmed(trimmed: string, formatted: seq<Cell>, n: int, pass: set<char>): (r: (seq<Cell>, string, seq<Cell>))
    decreases if n > 0 then n else 0, |formatted|
  {
    if n <= 0 then ([], trimmed, formatted)
    else if |formatted| > 0 && IsPass(formatted[0], pass) then
      var r := PrefixTrimmed(trimmed, formatted[1..], n, pass);
      ([formatted[0]] + r.0, r.1, r.2)
    else
      var r := PrefixTrimmed(Tail(trimmed), Tail(formatted), n - 1, pass);
      ([At(trimmed, 0)] + r.0, r.1, r.2)
  }

  /** parseSuffixTrimmed(trimmed, formatted, n, passthrough): the same from
      the back, each slot taken being put in front of the suffix. */
  function SuffixTrimmed(trimmed: string, formatted: seq<Cell>, n: int, pass: set<char>): (r: (seq<Cell>, string, seq<Cell>))
    decreases if n > 0 then n else 0, |formatted|
  {
    if n <= 0 then ([], trimmed, formatted)
    else if |formatted| > 0 && IsPass(formatted[|formatted| - 1], pass) then
      var r := SuffixTrimmed(trimmed, formatted[..|formatted| - 1], n, pass);
      (r.0 + [formatted[|formatted| - 1]], r.1, r.2)
    else
      var r := SuffixTrimmed(Init(trimmed), Init(formatted), n - 1, pass);
      (r.0 + [At(trimmed, |trimmed| - 1)], r.1, r.2)
  }

  /** The number of false entries (non-passthrough positions) of a mask. */
  function Falses(m: seq<bool>): nat
  {
    if m == [] then 0 else (if m[0] then 0 else 1) + Falses(m[1..])
  }

  lemma {:induction false} FalsesAppend(a: seq<bool>, b: seq<bool>)
    ensures Falses(a + b) == Falses(a) + Falses(b)
  {
    if a == [] {
      assert a + b == b;
    } else {
      assert (a + b)[1..] == a[1..] + b;
      FalsesAppend(a[1..], b);
    }
  }

  lemma FalsesSnoc(m: seq<bool>)
    requires |m| > 0
    ensures Falses(m) == Falses(m[..|m| - 1]) + (if m[|m| - 1] then 0 else 1)
  {
    assert m == m[..|m| - 1] + [m[|m| - 1]];
    FalsesAppend(m[..|m| - 1], [m[|m| - 1]]);
  }

  /** The non-passthrough characters are those the mask marks false. */
  lemma {:induction false} CountIsFalses(s: string, pass: set<char>)
    ensures Count(s, pass) == Falses(Mask(s, pass))
  {
    if s != [] {
      assert Mask(s, pass)[1..] == Mask(s[1..], pass);
      CountIsFalses(s[1..], pass);
    }
  }

  /** The position just after the n-th non-passthrough position. */
  function CutFront(m: seq<bool>, n: nat): (j: nat)
    requires n <= Falses(m)
    ensures j <= |m|
  {
    if n == 0 then 0
    else if m[0] then 1 + CutFront(m[1..], n)
    else 1 + CutFront(m[1..], n - 1)
  }

  /** The position of the n-th non-passthrough position from the back. */
  function CutBack(m: seq<bool>, n: nat): (j: nat)
    requires n <= Falses(m)
    ensures j <= |m|
    decreases |m|
  {
    if n == 0 then |m|
    else
      FalsesSnoc(m);
      if m[|m| - 1] then CutBack(m[..|m| - 1], n)
      else CutBack(m[..|m| - 1], n - 1)
  }

  /** CutFront takes exactly n non-passthrough positions and ends on one. */
  lemma {:induction false} CutFrontSpec(m: seq<bool>, n: nat)
    requires n <= Falses(m)
    ensures Falses(m[..CutFront(m, n)]) == n
    ensures n > 0 ==> !m[CutFront(m, n) - 1]
  {
    if n > 0 {
      var j := CutFront(m, n);
      if m[0] {
        CutFrontSpec(m[1..], n);
      } else {
        CutFrontSpec(m[1..], n - 1);
      }
      assert m[..j][1..] == m[1..][..j - 1];
    }
  }

  /** CutBack leaves exactly n non-passthrough positions behind it and
      starts on one. */
  lemma CutBackSpec(m: seq<bool>, n: nat)
    requires n <= Falses(m)
    ensures Falses(m[CutBack(m, n)..]) == n
    ensures n > 0 ==> !m[CutBack(m, n)]
  {
    CutBackCount(m, n);
    CutBackStart(m, n);
  }

  lemma {:induction false} CutBackCount(m: seq<bool>, n: nat)
    requires n <= Falses(m)
    ensures Falses(m[CutBack(m, n)..]) == n
    decreases |m|
  {
    if n > 0 {
      FalsesSnoc(m);
      var j := CutBack(m, n);
      var init := m[..|m| - 1];
      var last := m[|m| - 1];
      var n' := if last then n else n - 1;
      assert j == CutBack(init, n');
      CutBackCount(init, n');
      assert m[j..] == init[j..] + [last];
      FalsesAppend(init[j..], [last]);
    }
  }

  lemma {:induction false} CutBackStart(m: seq<bool>, n: nat)
    requires n <= Falses(m)
    ensures n > 0 ==> !m[CutBack(m, n)]
    decreases |m|
  {
    if n > 0 {
      FalsesSnoc(m);
      var j := CutBack(m, n);
      var init := m[..|m| - 1];
      var last := m[|m| - 1];
      var n' := if last then n else n - 1;
      assert j == CutBack(init, n');
      if n' > 0 {
        CutBackStart(init, n');
        assert m[j] == init[j];
      } else {
        assert j == |init|;
      }
    }
  }

  /** A placeholder that is not a passthrough character. */
  predicate Placeholder(z: Cell, pass: set<char>)
  {
    !IsPass(z, pass)
  }

  /** Cutting by count after trimming is cutting the text before trimming:
      parsePrefixTrimmed on the trim of s takes the text up to just after
      its n-th non-passthrough character, and leaves the trim of the rest. */
  lemma {:induction false} PrefixTrimmedCut(s: string, pass: set<char>, z: Cell, n: nat)
    requires Placeholder(z, pass) && n <= Falses(Mask(s, pass))
    ensures var j := CutFront(Mask(s, pass), n);
            PrefixTrimmed(TrimInput(s, pass, z).0, TrimInput(s, pass, z).1, n, pass)
              == (Lift(s[..j]), TrimInput(s[j..], pass, z).0, TrimInput(s[j..], pass, z).1)
  {
    if n > 0 {
      var m := Mask(s, pass);
      assert m[1..] == Mask(s[1..], pass);
      var n' := if s[0] in pass then n else n - 1;
      var j := CutFront(m, n);
      assert j == 1 + CutFront(Mask(s[1..], pass), n');
      PrefixTrimmedCut(s[1..], pass, z, n');
      PrefixTrimmedStep(s, pass, z, n);
      var rest := TrimInput(s[1..], pass, z);
      var r := PrefixTrimmed(rest.0, rest.1, n', pass);
      var tf := TrimInput(s, pass, z);
      ConsCompose(s, j, pass, z, r, PrefixTrimmed(tf.0, tf.1, n, pass));
    }
  }

  /** The prefix cut from the text after its first character, with that
      character put back in front. */
  lemma ConsCompose(s: string, j: nat, pass: set<char>, z: Cell, r: (seq<Cell>, string, seq<Cell>),
                    out: (seq<Cell>, string, seq<Cell>))
    requires 0 < j <= |s|
    requires r == (Lift(s[1..][..j - 1]), TrimInput(s[1..][j - 1..], pass, z).0,
                   TrimInput(s[1..][j - 1..], pass, z).1)
    requires out == ([Some(s[0])] + r.0, r.1, r.2)
    ensures out == (Lift(s[..j]), TrimInput(s[j..], pass, z).0, TrimInput(s[j..], pass, z).1)
  {
    LiftCut(s, j);
    assert s[1..][j - 1..] == s[j..];
  }

  /** One step of parsePrefixTrimmed on a trimmed text: the first slot of
      s goes to the prefix and the rest is cut from the trim of s[1..]. */
  lemma PrefixTrimmedStep(s: string, pass: set<char>, z: Cell, n: nat)
    requires Placeholder(z, pass) && |s| > 0 && n > 0
    ensures var tf := TrimInput(s, pass, z);
            var rest := TrimInput(s[1..], pass, z);
            var r := PrefixTrimmed(rest.0, rest.1, if s[0] in pass then n else n - 1, pass);
            PrefixTrimmed(tf.0, tf.1, n, pass) == ([Some(s[0])] + r.0, r.1, r.2)
  {
    var tf := TrimInput(s, pass, z);
    var rest := TrimInput(s[1..], pass, z);
    assert tf.1 == [tf.1[0]] + rest.1;
    if s[0] in pass {
      assert tf.0 == rest.0 && tf.1[0] == Some(s[0]);
    } else {
      assert tf.0 == [s[0]] + rest.0 && tf.1[0] == z;
    }
  }

  lemma LiftCut(s: string, j: nat)
    requires 0 < j <= |s|
    ensures [Some(s[0])] + Lift(s[1..][..j - 1]) == Lift(s[..j])
  {
  }

  /** The trimmed text of a + b is that of a followed by that of b. */
  lemma {:induction false} TrimmedAppend(a: string, b: string, pass: set<char>, z: Cell)
    ensures TrimInput(a + b, pass, z).0 == TrimInput(a, pass, z).0 + TrimInput(b, pass, z).0
  {
    if a == [] {
      assert a + b == b;
    } else {
      assert (a + b)[0] == a[0] && (a + b)[1..] == a[1..] + b;
      TrimmedAppend(a[1..], b, pass, z);
      var ra := TrimInput(a[1..], pass, z).0;
      var rb := TrimInput(b, pass, z).0;
      if a[0] !in pass {
        assert [a[0]] + (ra + rb) == ([a[0]] + ra) + rb;
      }
    }
  }

  /** Trimming s after its last character. */
  lemma TrimSnoc(s: string, pass: set<char>, z: Cell)
    requires |s| > 0
    ensures var init := s[..|s| - 1];
            var last := s[|s| - 1];
            && TrimInput(s, pass, z).0 == TrimInput(init, pass, z).0 + (if last in pass then [] else [last])
            && TrimInput(s, pass, z).1 == TrimInput(init, pass, z).1 + [if last in pass then Some(last) else z]
  {
    var init := s[..|s| - 1];
    var last := s[|s| - 1];
    assert s == init + [last];
    TrimmedAppend(init, [last], pass, z);
    assert TrimInput([last], pass, z).0 == (if last in pass then [] else [last]);
  }

  /** One step of parseSuffixTrimmed on a trimmed text: the last slot of
      s goes to the suffix and the rest is cut from the trim of the front. */
  lemma SuffixTrimmedStep(s: string, pass: set<char>, z: Cell, n: nat)
    requires Placeholder(z, pass) && |s| > 0 && n > 0
    ensures var tf := TrimInput(s, pass, z);
            var last := s[|s| - 1];
            var ti := TrimInput(s[..|s| - 1], pass, z);
            var r := SuffixTrimmed(ti.0, ti.1, if last in pass then n else n - 1, pass);
            SuffixTrimmed(tf.0, tf.1, n, pass) == (r.0 + [Some(last)], r.1, r.2)
  {
    TrimSnoc(s, pass, z);
    var tf := TrimInput(s, pass, z);
    var ti := TrimInput(s[..|s| - 1], pass, z);
    assert tf.1[..|tf.1| - 1] == ti.1;
    assert tf.1[|tf.1| - 1] == if s[|s| - 1] in pass then Some(s[|s| - 1]) else z;
    if s[|s| - 1] !in pass {
      assert tf.0[..|tf.0| - 1] == ti.0 && tf.0[|tf.0| - 1] == s[|s| - 1];
      assert Init(tf.0) == ti.0 && Init(tf.1) == ti.1;
      assert At(tf.0, |tf.0| - 1) == Some(s[|s| - 1]);
      assert !IsPass(tf.1[|tf.1| - 1], pass);
    } else {
      assert tf.0 == ti.0;
    }
  }

  /** The mirror image of PrefixTrimmedCut: parseSuffixTrimmed takes the
      text from its n-th non-passthrough character counted from the back. */
  lemma {:induction false} SuffixTrimmedCut(s: string, pass: set<char>, z: Cell, n: nat)
    requires Placeholder(z, pass) && n <= Falses(Mask(s, pass))
    ensures var j := CutBack(Mask(s, pass), n);
            SuffixTrimmed(TrimInput(s, pass, z).0, TrimInput(s, pass, z).1, n, pass)
              == (Lift(s[j..]), TrimInput(s[..j], pass, z).0, TrimInput(s[..j], pass, z).1)
    decreases |s|
  {
    var m := Mask(s, pass);
    if n == 0 {
      assert s[|s|..] == [] && s[..|s|] == s;
    } else {
      var k := |s| - 1;
      var init := s[..k];
      var last := s[k];
      assert m[..k] == Mask(init, pass);
      FalsesSnoc(m);
      var n' := if last in pass then n else n - 1;
      var j := CutBack(m, n);
      assert j == CutBack(Mask(init, pass), n');
      SuffixTrimmedCut(init, pass, z, n');
      SuffixTrimmedStep(s, pass, z, n);
      var ti := TrimInput(init, pass, z);
      var r := SuffixTrimmed(ti.0, ti.1, n', pass);
      var tf := TrimInput(s, pass, z);
      SnocCompose(s, j, pass, z, r, SuffixTrimmed(tf.0, tf.1, n, pass));
    }
  }

  /** The suffix cut from the text before its last character, with that
      character put back at the end. */
  lemma SnocCompose(s: string, j: nat, pass: set<char>, z: Cell, r: (seq<Cell>, string, seq<Cell>),
                    out: (seq<Cell>, string, seq<Cell>))
    requires j < |s|
    requires r == (Lift(s[..|s| - 1][j..]), TrimInput(s[..|s| - 1][..j], pass, z).0,
                   TrimInput(s[..|s| - 1][..j], pass, z).1)
    requires out == (r.0 + [Some(s[|s| - 1])], r.1, r.2)
    ensures out == (Lift(s[j..]), TrimInput(s[..j], pass, z).0, TrimInput(s[..j], pass, z).1)
  {
    LiftSnoc(s, j);
    assert s[..|s| - 1][..j] == s[..j];
  }

  lemma LiftSnoc(s: string, j: nat)
    requires j < |s|
    ensures Lift(s[..|s| - 1][j..]) + [Some(s[|s| - 1])] == Lift(s[j..])
  {
  }

  // ---------------------------------------------------------------------
  // The passthrough_priorities loop

  /** The state of the rules loop: the raw text left, the prefix and
      suffix cut so far, the trimmed text and its template, and whether the
      passthrough rule has run. */
  datatype Parse = Parse(raw: string, prefix: seq<Cell>, suffix: seq<Cell>,
                         trimmed: string, formatted: seq<Cell>, processed: bool)

  /** One rule of `passthrough_priorities`: before the passthrough rule, the
      prefix and suffix rules slice the raw text by position; after it, they
      cut the trimmed text and its template by count. The passthrough rule
      trims the raw text with the placeholder z. */
  function Apply(d: Dataset, z: Cell, p: Parse, rule: Rule): Parse
  {
    match rule
    case PrefixRule =>
      if p.processed then
        var r := PrefixTrimmed(p.trimmed, p.formatted, d.prefixLength, PassSet(d));
        p.(prefix := r.0, trimmed := r.1, formatted := r.2)
      else
        var r := ParsePrefix(p.raw, d.prefixLength);
        p.(prefix := Lift(r.0), raw := r.1)
    case SuffixRule =>
      if p.processed then
        var r := SuffixTrimmed(p.trimmed, p.formatted, d.suffixLength, PassSet(d));
        p.(suffix := r.0, trimmed := r.1, formatted := r.2)
      else
        var r := ParseSuffix(p.raw, d.suffixLength);
        p.(suffix := Lift(r.0), raw := r.1)
    case PassthroughRule =>
      var tf := TrimInput(p.raw, PassSet(d), z);
      p.(trimmed := tf.0, formatted := tf.1, processed := true)
    case OtherRule => p
  }

  function Rules(d: Dataset, z: Cell, p: Parse, rules: seq<Rule>): Parse
    decreases |rules|
  {
    if rules == [] then p else Rules(d, z, Apply(d, z, p, rules[0]), rules[1..])
  }

  /** The loop over `passthrough_priorities` from an empty state, then the
      trimming the code does when no passthrough rule ran. */
  function Decompose(d: Dataset, z: Cell, x: string): Parse
  {
    var p := Rules(d, z, Parse(x, [], [], [], [], false), d.priorities);
    if p.processed then p
    else
      var tf := TrimInput(p.raw, PassSet(d), z);
      p.(trimmed := tf.0, formatted := tf.1)
  }

  /** Where the rules loop cuts a text, computed from its passthrough mask
      alone: the prefix is the text before a, the suffix the text from b,
      and once the passthrough rule has run the cuts count non-passthrough
      positions. ok turns false when a count cut runs out of them. */
  datatype Cuts = Cuts(a: nat, b: nat, processed: bool, ok: bool)

  /** A cut count as the while loops see it: nothing for n <= 0. */
  function Amount(n: int): nat
  {
    if n > 0 then n else 0
  }

  function PlanStep(d: Dataset, m: seq<bool>, q: Cuts, rule: Rule): (q': Cuts)
    requires q.a <= q.b <= |m|
    ensures q'.a <= q'.b <= |m|
    ensures q'.ok ==> q.ok
  {
    match rule
    case PrefixRule =>
      if !q.processed then q.(a := q.a + SubstrStart(q.b - q.a, d.prefixLength))
      else if Amount(d.prefixLength) <= Falses(m[q.a..q.b]) then
        q.(a := q.a + CutFront(m[q.a..q.b], Amount(d.prefixLength)))
      else q.(ok := false)
    case SuffixRule =>
      if !q.processed then q.(b := q.a + SubstrStart(q.b - q.a, (q.b - q.a) - d.suffixLength))
      else if Amount(d.suffixLength) <= Falses(m[q.a..q.b]) then
        q.(b := q.a + CutBack(m[q.a..q.b], Amount(d.suffixLength)))
      else q.(ok := false)
    case PassthroughRule => q.(processed := true)
    case OtherRule => q
  }

  function PlanRules(d: Dataset, m: seq<bool>, q: Cuts, rules: seq<Rule>): (q': Cuts)
    requires q.a <= q.b <= |m|
    ensures q'.a <= q'.b <= |m|
    ensures q'.ok ==> q.ok
    decreases |rules|
  {
    if rules == [] then q else PlanRules(d, m, PlanStep(d, m, q, rules[0]), rules[1..])
  }

  /** The cuts the dataset's rules make in a text with passthrough mask m. */
  function Plan(d: Dataset, m: seq<bool>): (q: Cuts)
    ensures q.a <= q.b <= |m|
  {
    PlanRules(d, m, Cuts(0, |m|, false, true), d.priorities)
  }

  /** No rule other than OtherRule appears twice. */
  predicate NoRepeats(rules: seq<Rule>)
  {
    forall i, j :: 0 <= i < j < |rules| && rules[i] != OtherRule ==> rules[i] != rules[j]
  }

  /** The loop state agrees with the cuts q of x. */
  predicate Holds(d: Dataset, z: Cell, x: string, p: Parse, q: Cuts)
  {
    && q.a <= q.b <= |x|
    && p.prefix == Lift(x[..q.a]) && p.suffix == Lift(x[q.b..])
    && p.processed == q.processed
    && (!q.processed ==> p.raw == x[q.a..q.b])
    && (q.processed ==> (p.trimmed, p.formatted) == TrimInput(x[q.a..q.b], PassSet(d), z))
  }

  /** The rules still to come have not run yet. */
  predicate Fresh(x: string, q: Cuts, rules: seq<Rule>)
  {
    && (PrefixRule in rules ==> q.a == 0)
    && (SuffixRule in rules ==> q.b == |x|)
    && (PassthroughRule in rules ==> !q.processed)
  }

  lemma MaskSlice(x: string, pass: set<char>, a: nat, b: nat)
    requires a <= b <= |x|
    ensures Mask(x[a..b], pass) == Mask(x, pass)[a..b]
  {
  }

  /** One rule keeps the state in step with the cuts. */
  lemma ApplyHolds(d: Dataset, z: Cell, x: string, p: Parse, q: Cuts, rule: Rule)
    requires Placeholder(z, PassSet(d)) && Holds(d, z, x, p, q) && Fresh(x, q, [rule])
    requires q.b <= |Mask(x, PassSet(d))| && PlanStep(d, Mask(x, PassSet(d)), q, rule).ok
    ensures Holds(d, z, x, Apply(d, z, p, rule), PlanStep(d, Mask(x, PassSet(d)), q, rule))
  {
    match rule
    case PrefixRule =>
      if q.processed { PrefixCountHolds(d, z, x, p, q); } else { PrefixSliceHolds(d, z, x, p, q); }
    case SuffixRule =>
      if q.processed { SuffixCountHolds(d, z, x, p, q); } else { SuffixSliceHolds(d, z, x, p, q); }
    case PassthroughRule =>
    case OtherRule =>
  }

  lemma PrefixSliceHolds(d: Dataset, z: Cell, x: string, p: Parse, q: Cuts)
    requires Holds(d, z, x, p, q) && q.a == 0 && !q.processed
    ensures Holds(d, z, x, Apply(d, z, p, PrefixRule), PlanStep(d, Mask(x, PassSet(d)), q, PrefixRule))
  {
    var s := x[q.a..q.b];
    var c := SubstrStart(q.b - q.a, d.prefixLength);
    assert s[..c] == x[..c] && s[c..] == x[c..q.b];
  }

  lemma SuffixSliceHolds(d: Dataset, z: Cell, x: string, p: Parse, q: Cuts)
    requires Holds(d, z, x, p, q) && q.b == |x| && !q.processed
    ensures Holds(d, z, x, Apply(d, z, p, SuffixRule), PlanStep(d, Mask(x, PassSet(d)), q, SuffixRule))
  {
    var s := x[q.a..q.b];
    var c := SubstrStart(q.b - q.a, (q.b - q.a) - d.suffixLength);
    var q' := q.(b := q.a + c);
    assert PlanStep(d, Mask(x, PassSet(d)), q, SuffixRule) == q';
    assert p.raw == s && |s| == q.b - q.a;
    assert ParseSuffix(p.raw, d.suffixLength) == (s[c..], s[..c]);
    var p' := p.(suffix := Lift(s[c..]), raw := s[..c]);
    assert Apply(d, z, p, SuffixRule) == p';
    TailParts(x, q.a, c, q'.b);
    SliceHoldsAt(d, z, x, p', q');
  }

  /** Cutting the middle x[a..] at c is cutting x at e = a + c. */
  lemma TailParts<T>(x: seq<T>, a: nat, c: nat, e: nat)
    requires e == a + c <= |x|
    ensures x[a..|x|][c..] == x[e..] && x[a..|x|][..c] == x[a..e]
  {
  }

  /** Holds for a state whose text parts are already known to be the
      slices of x the cuts name. */
  lemma SliceHoldsAt(d: Dataset, z: Cell, x: string, p: Parse, q: Cuts)
    requires q.a <= q.b <= |x| && !q.processed && !p.processed
    requires p.prefix == Lift(x[..q.a]) && p.suffix == Lift(x[q.b..]) && p.raw == x[q.a..q.b]
    ensures Holds(d, z, x, p, q)
  {
  }

  lemma PrefixCountHolds(d: Dataset, z: Cell, x: string, p: Parse, q: Cuts)
    requires Placeholder(z, PassSet(d)) && Holds(d, z, x, p, q) && q.a == 0 && q.processed
    requires PlanStep(d, Mask(x, PassSet(d)), q, PrefixRule).ok
    ensures Holds(d, z, x, Apply(d, z, p, PrefixRule), PlanStep(d, Mask(x, PassSet(d)), q, PrefixRule))
  {
    var pass := PassSet(d);
    var m := Mask(x, pass);
    var s := x[q.a..q.b];
    MaskSlice(x, pass, q.a, q.b);
    var n := Amount(d.prefixLength);
    PrefixTrimmedCut(s, pass, z, n);
    var j := CutFront(m[q.a..q.b], n);
    assert s[..j] == x[..j] && s[j..] == x[j..q.b];
    if d.prefixLength <= 0 {
      assert PrefixTrimmed(p.trimmed, p.formatted, d.prefixLength, pass)
          == PrefixTrimmed(p.trimmed, p.formatted, n, pass);
    }
  }

  lemma SuffixCountHolds(d: Dataset, z: Cell, x: string, p: Parse, q: Cuts)
    requires Placeholder(z, PassSet(d)) && Holds(d, z, x, p, q) && q.b == |x| && q.processed
    requires PlanStep(d, Mask(x, PassSet(d)), q, SuffixRule).ok
    ensures Holds(d, z, x, Apply(d, z, p, SuffixRule), PlanStep(d, Mask(x, PassSet(d)), q, SuffixRule))
  {
    var pass := PassSet(d);
    var s := x[q.a..];
    assert s == x[q.a..q.b];
    MaskSlice(x, pass, q.a, q.b);
    var n := Amount(d.suffixLength);
    var j := CutBack(Mask(s, pass), n);
    var q' := q.(b := q.a + j);
    assert PlanStep(d, Mask(x, pass), q, SuffixRule) == q';
    SuffixTrimmedCut(s, pass, z, n);
    var r := SuffixTrimmed(p.trimmed, p.formatted, d.suffixLength, pass);
    assert r == SuffixTrimmed(p.trimmed, p.formatted, n, pass);
    var ts := TrimInput(s, pass, z);
    assert (p.trimmed, p.formatted) == ts;
    assert r == (Lift(s[j..]), TrimInput(s[..j], pass, z).0, TrimInput(s[..j], pass, z).1);
    SuffixCutParts(x, q.a, j, q'.b, pass, z, r);
    var p' := p.(suffix := r.0, trimmed := r.1, formatted := r.2);
    assert Apply(d, z, p, SuffixRule) == p';
    CountHoldsAt(d, z, x, p', q');
  }

  /** Cutting the tail x[a..] at j is cutting x at a + j. */
  lemma SuffixCutParts(x: string, a: nat, j: nat, b: nat, pass: set<char>, z: Cell, r: (seq<Cell>, string, seq<Cell>))
    requires b == a + j <= |x|
    requires r == (Lift(x[a..][j..]), TrimInput(x[a..][..j], pass, z).0, TrimInput(x[a..][..j], pass, z).1)
    ensures r == (Lift(x[b..]), TrimInput(x[a..b], pass, z).0, TrimInput(x[a..b], pass, z).1)
  {
    assert x[a..][j..] == x[b..] && x[a..][..j] == x[a..b];
  }

  /** Holds for a processed state whose parts are already known to be
      the slices of x the cuts name and the trim of the middle. */
  lemma CountHoldsAt(d: Dataset, z: Cell, x: string, p: Parse, q: Cuts)
    requires q.a <= q.b <= |x| && q.processed && p.processed
    requires p.prefix == Lift(x[..q.a]) && p.suffix == Lift(x[q.b..])
    requires (p.trimmed, p.formatted) == TrimInput(x[q.a..q.b], PassSet(d), z)
    ensures Holds(d, z, x, p, q)
  {
  }


  /** The whole rules loop stays in step with the plan. */
  lemma {:induction false} RulesHold(d: Dataset, z: Cell, x: string, p: Parse, q: Cuts, rules: seq<Rule>)
    requires Placeholder(z, PassSet(d)) && Holds(d, z, x, p, q) && Fresh(x, q, rules) && NoRepeats(rules)
    requires q.b <= |Mask(x, PassSet(d))| && PlanRules(d, Mask(x, PassSet(d)), q, rules).ok
    ensures Holds(d, z, x, Rules(d, z, p, rules), PlanRules(d, Mask(x, PassSet(d)), q, rules))
    decreases |rules|
  {
    if rules != [] {
      var m := Mask(x, PassSet(d));
      var q' := PlanStep(d, m, q, rules[0]);
      ApplyHolds(d, z, x, p, q, rules[0]);
      assert rules[0] != OtherRule ==> rules[0] !in rules[1..] by {
        forall j | 0 <= j < |rules[1..]|
          ensures rules[0] != OtherRule ==> rules[0] != rules[1..][j]
        {
          assert rules[1..][j] == rules[j + 1];
        }
      }
      assert NoRepeats(rules[1..]) by {
        forall i, j | 0 <= i < j < |rules[1..]| && rules[1..][i] != OtherRule
          ensures rules[1..][i] != rules[1..][j]
        {
          assert rules[1..][i] == rules[i + 1] && rules[1..][j] == rules[j + 1];
        }
      }
      assert forall r :: r in rules[1..] ==> r in rules;
      RulesHold(d, z, x, Apply(d, z, p, rules[0]), q', rules[1..]);
    }
  }

  /** What the rules loop makes of x: the prefix x[..a], the suffix x[b..]
      and the trim of the rest, where (a, b) is the plan for x's passthrough
      mask, provided no rule repeats and the count cuts find enough
      non-passthrough characters. */
  lemma DecomposeView(d: Dataset, z: Cell, x: string)
    requires Placeholder(z, PassSet(d)) && NoRepeats(d.priorities)
    requires Plan(d, Mask(x, PassSet(d))).ok
    ensures var q := Plan(d, Mask(x, PassSet(d)));
            var p := Decompose(d, z, x);
            && p.prefix == Lift(x[..q.a]) && p.suffix == Lift(x[q.b..])
            && (p.trimmed, p.formatted) == TrimInput(x[q.a..q.b], PassSet(d), z)
  {
    var q := Cuts(0, |x|, false, true);
    assert x[..0] == [] && x[|x|..] == [] && x[0..|x|] == x;
    RulesHold(d, z, x, Parse(x, [], [], [], [], false), q, d.priorities);
  }

  // ---------------------------------------------------------------------
  // Encryption and decryption

  /** The trimmed text of x the encrypting side sees. */
  function Trimmed(d: Dataset, x: string): string
  {
    Decompose(d, At(d.output, 0), x).trimmed
  }

  /** EncryptAsyncKeyNumber (lines 200-277) without its billing call: the
      rules loop, the validation of the trimmed text against the input
      alphabet, the length bounds, the recode core, the scatter into the
      template, and prefix + template + suffix joined. */
  function Encrypt(d: Dataset, ctx: Context, x: string, keyNumber: int): (r: Result<string>)
    ensures !AllIn(Trimmed(d, x), d.input) ==>
              r == Err(InvalidInputChar(FirstOutside(Trimmed(d, x), d.input).value))
    ensures AllIn(Trimmed(d, x), d.input) &&
            (|Trimmed(d, x)| < d.minLength || |Trimmed(d, x)| > d.maxLength) ==>
              r == Err(InvalidInputLength)
    ensures r.Ok? ==> AllIn(Trimmed(d, x), d.input) && Rendered(d, ctx, Trimmed(d, x)).Ok? &&
                      d.minLength <= |Trimmed(d, x)| <= d.maxLength
  {
    var z := At(d.output, 0);
    var p := Decompose(d, z, x);
    var bad := FirstOutside(p.trimmed, d.input);
    if bad.Some? then Err(InvalidInputChar(bad.value))
    else
      :- Need(!(|p.trimmed| < d.minLength || |p.trimmed| > d.maxLength), InvalidInputLength);
      var cells :- EncryptTrimmed(d, ctx, p.trimmed, keyNumber);
      Ok(Join(p.prefix + Scatter(p.formatted, z, cells) + p.suffix))
  }

  /** DecryptAsync (lines 279-371) once the dataset is known, without its
      billing call: the same rules loop with the input alphabet's first
      symbol as placeholder, validation against the output alphabet, and
      the key number taken from the cipher text. */
  function Decrypt(d: Dataset, keys: KeyRing, y: string): (r: Result<string>)
    ensures var t := Decompose(d, At(d.input, 0), y).trimmed;
            !AllIn(t, d.output) ==> r == Err(InvalidInputChar(FirstOutside(t, d.output).value))
    ensures var t := Decompose(d, At(d.input, 0), y).trimmed;
            r.Ok? ==> AllIn(t, d.output) && DecryptTrimmed(d, keys, t).Ok?
  {
    var z := At(d.input, 0);
    var p := Decompose(d, z, y);
    var bad := FirstOutside(p.trimmed, d.output);
    if bad.Some? then Err(InvalidInputChar(bad.value))
    else
      var kv :- DecryptTrimmed(d, keys, p.trimmed);
      Ok(Join(p.prefix + Scatter(p.formatted, z, Lift(kv.1)) + p.suffix))
  }

  /** Joining the three parts of a split text. */
  lemma JoinParts(a: string, b: string, c: string)
    ensures Join(Lift(a) + Lift(b) + Lift(c)) == a + b + c
  {
    JoinAppend(Lift(a) + Lift(b), Lift(c));
    JoinAppend(Lift(a), Lift(b));
    JoinLift(a);
    JoinLift(b);
    JoinLift(c);
  }

  /** Encryption in terms of the plan: the prefix and suffix of x around
      the template of its middle part. */
  lemma EncryptParts(d: Dataset, ctx: Context, x: string, k: int)
    requires Placeholder(At(d.output, 0), PassSet(d))
    requires NoRepeats(d.priorities) && Plan(d, Mask(x, PassSet(d))).ok
    requires Encrypt(d, ctx, x, k).Ok?
    ensures var q := Plan(d, Mask(x, PassSet(d)));
            var z := At(d.output, 0);
            var tf := TrimInput(x[q.a..q.b], PassSet(d), z);
            && Trimmed(d, x) == tf.0
            && Encrypt(d, ctx, x, k).value
               == Join(Lift(x[..q.a]) + Scatter(tf.1, z, EncryptTrimmed(d, ctx, tf.0, k).value) + Lift(x[q.b..]))
  {
    DecomposeView(d, At(d.output, 0), x);
  }

  /** A successful encryption keeps the prefix and suffix of the plan and
      fills the part between them with output symbols, one per
      non-passthrough character. */
  lemma EncryptFilled(d: Dataset, ctx: Context, x: string, k: int)
    requires Distinct(d.output) && |d.output| >= 1 && d.output[0] !in d.passthrough
    requires NoRepeats(d.priorities) && Plan(d, Mask(x, PassSet(d))).ok
    requires Encrypt(d, ctx, x, k).Ok?
    requires Embeddable(d, Rendered(d, ctx, Trimmed(d, x)).value, |Trimmed(d, x)|, k)
    ensures var q := Plan(d, Mask(x, PassSet(d)));
            var s := x[q.a..q.b];
            var e := Join(EncryptTrimmed(d, ctx, Trimmed(d, x), k).value);
            && Trimmed(d, x) == TrimInput(s, PassSet(d), At(d.output, 0)).0
            && |e| == Count(s, PassSet(d)) && AllIn(e, d.output)
            && Encrypt(d, ctx, x, k).value == x[..q.a] + Fill(s, PassSet(d), e) + x[q.b..]
  {
    var pass := PassSet(d);
    var q := Plan(d, Mask(x, pass));
    var s := x[q.a..q.b];
    EncryptParts(d, ctx, x, k);
    var t := Trimmed(d, x);
    var pad := Rendered(d, ctx, t).value;
    ExtractEmbed(d, pad, k);
    RenderedAlphabet(d, ctx, t);
    EmbedAlphabet(d, pad, k);
    var e := Join(EncryptTrimmed(d, ctx, t, k).value);
    ScatterTemplate(s, pass, d.output[0], e);
    JoinParts(x[..q.a], Fill(s, pass, e), x[q.b..]);
  }

  /** Decryption in terms of the plan of y. */
  lemma DecryptParts(d: Dataset, keys: KeyRing, y: string)
    requires Placeholder(At(d.input, 0), PassSet(d))
    requires NoRepeats(d.priorities) && Plan(d, Mask(y, PassSet(d))).ok
    ensures var q := Plan(d, Mask(y, PassSet(d)));
            var z := At(d.input, 0);
            var tf := TrimInput(y[q.a..q.b], PassSet(d), z);
            AllIn(tf.0, d.output) && DecryptTrimmed(d, keys, tf.0).Ok? ==>
              Decrypt(d, keys, y)
              == Ok(Join(Lift(y[..q.a]) + Scatter(tf.1, z, Lift(DecryptTrimmed(d, keys, tf.0).value.1)) + Lift(y[q.b..])))
  {
    DecomposeView(d, At(d.input, 0), y);
  }

  lemma SplitThree<T>(x: seq<T>, a: nat, b: nat)
    requires a <= b <= |x|
    ensures x[..a] + x[a..b] + x[b..] == x
  {
  }

  /** Filling the middle part keeps the passthrough mask of the text. */
  lemma MaskFillMiddle(x: string, pass: set<char>, a: nat, b: nat, e: string)
    requires a <= b <= |x| && |e| == Count(x[a..b], pass)
    requires forall i :: 0 <= i < |e| ==> e[i] !in pass
    ensures Mask(x[..a] + Fill(x[a..b], pass, e) + x[b..], pass) == Mask(x, pass)
  {
    var s := x[a..b];
    var f := Fill(s, pass, e);
    MaskFill(s, pass, e);
    MaskAppend(x[..a] + f, x[b..], pass);
    MaskAppend(x[..a], f, pass);
    MaskAppend(x[..a] + s, x[b..], pass);
    MaskAppend(x[..a], s, pass);
    assert x == x[..a] + s + x[b..];
  }

  /** Trimming a filled middle part gives back the symbols put in, and
      scattering its trimmed text into the template restores it. */
  lemma MiddleRestores(s: string, pass: set<char>, e: string, z: char, w: Cell)
    requires z !in pass && |e| == Count(s, pass)
    requires forall i :: 0 <= i < |e| ==> e[i] !in pass
    ensures var tf := TrimInput(Fill(s, pass, e), pass, Some(z));
            && tf.0 == e
            && Scatter(tf.1, Some(z), Lift(TrimInput(s, pass, w).0)) == Lift(s)
  {
    var t := TrimInput(s, pass, w).0;
    TrimFilled(s, pass, e, Some(z));
    FillTrimmed(s, pass, w);
    TrimFilled(s, pass, t, Some(z));
    ScatterTemplate(s, pass, z, t);
  }

  /** The three parts of x with its middle replaced by f. */
  lemma MiddleSlices<T>(x: seq<T>, f: seq<T>, a: nat, b: nat, y: seq<T>)
    requires a <= b <= |x| && |f| == b - a && y == x[..a] + f + x[b..]
    ensures y[..a] == x[..a] && y[a..b] == f && y[b..] == x[b..]
  {
  }

  /** Decrypting x with the middle part filled by symbols e that decrypt
      to its trimmed text gives back x. */
  lemma DecryptFilled(d: Dataset, keys: KeyRing, x: string, e: string, k: int)
    requires |d.input| >= 1 && d.input[0] !in d.passthrough
    requires NoRepeats(d.priorities) && Plan(d, Mask(x, PassSet(d))).ok
    requires var q := Plan(d, Mask(x, PassSet(d)));
             var s := x[q.a..q.b];
             && |e| == Count(s, PassSet(d)) && AllIn(e, d.output)
             && (forall i :: 0 <= i < |e| ==> e[i] !in d.passthrough)
             && DecryptTrimmed(d, keys, e) == Ok((k, TrimInput(s, PassSet(d), At(d.output, 0)).0))
    ensures var q := Plan(d, Mask(x, PassSet(d)));
            var s := x[q.a..q.b];
            Decrypt(d, keys, x[..q.a] + Fill(s, PassSet(d), e) + x[q.b..]) == Ok(x)
  {
    var pass := PassSet(d);
    var q := Plan(d, Mask(x, pass));
    var s := x[q.a..q.b];
    var f := Fill(s, pass, e);
    var y := x[..q.a] + f + x[q.b..];
    var z := At(d.input, 0);
    var t := TrimInput(s, pass, At(d.output, 0)).0;
    MaskFillMiddle(x, pass, q.a, q.b, e);
    assert Plan(d, Mask(y, pass)) == q;
    DecryptParts(d, keys, y);
    MiddleSlices(x, f, q.a, q.b, y);
    MiddleRestores(s, pass, e, d.input[0], At(d.output, 0));
    var tf := TrimInput(f, pass, z);
    assert tf.0 == e && DecryptTrimmed(d, keys, tf.0).value.1 == t;
    assert Scatter(tf.1, z, Lift(t)) == Lift(s);
    JoinParts(x[..q.a], s, x[q.b..]);
    SplitThree(x, q.a, q.b);
    assert Decrypt(d, keys, y) == Ok(Join(Lift(x[..q.a]) + Lift(s) + Lift(x[q.b..])));
  }

  /** Decrypt(Encrypt(x)) == x for a structured dataset, under the
      conditions the code does not check (those of the unstructured round
      trip), with rules that do not repeat and a text long enough for the
      count cuts. */
  lemma RoundTrip(d: Dataset, ctx: Context, keys: KeyRing, x: string, k: int)
    requires Distinct(d.input) && Distinct(d.output) && |d.input| >= 2 && |d.output| >= 2
    requires forall i :: 0 <= i < |d.output| ==> d.output[i] !in d.passthrough
    requires d.input[0] !in d.passthrough
    requires Invertible(ctx, d.input) && keys(k) == Ok(ctx)
    requires NoRepeats(d.priorities) && Plan(d, Mask(x, PassSet(d))).ok
    requires Encrypt(d, ctx, x, k).Ok?
    requires Embeddable(d, Rendered(d, ctx, Trimmed(d, x)).value, |Trimmed(d, x)|, k)
    ensures Decrypt(d, keys, Encrypt(d, ctx, x, k).value) == Ok(x)
  {
    var t := Trimmed(d, x);
    RecodeInverse(d, ctx, keys, t, k);
    EncryptFilled(d, ctx, x, k);
    var e := Join(EncryptTrimmed(d, ctx, t, k).value);
    assert forall i :: 0 <= i < |e| ==> e[i] !in d.passthrough;
    DecryptFilled(d, keys, x, e, k);
  }
}
