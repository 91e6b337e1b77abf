/** The placeholder template both orchestrators build around the cipher:
    `trimInput` (lib/structuredEncryptDecrypt.js) and the equivalent single
    pass of lib/fpeEncryptDecrypt.js split a text into the characters to
    encrypt and a template that keeps the passthrough characters in place;
    the scatter loops write the cipher's symbols back into the template.
    A JS array that may hold `undefined` is a sequence of cells, and
    `join('')` skips the undefined ones. */
module Template {
  import opened Wrappers

  /** One JS array slot: a character, or `undefined`. */
  type Cell = Option<char>

  /** `s.split('')`. */
  function Lift(s: string): (c: seq<Cell>)
    ensures |c| == |s| && forall i :: 0 <= i < |s| ==> c[i] == Some(s[i])
  {
    seq(|s|, i requires 0 <= i < |s| => Some(s[i]))
  }

  /** `arr.join('')`: the characters in order, undefined slots skipped. */
  function Join(c: seq<Cell>): (s: string)
    ensures |s| <= |c|
  {
    if c == [] then []
    else (if c[0].Some? then [c[0].value] else []) + Join(c[1..])
  }

  /** Joining a split string gives the string back. */
  lemma {:induction false} JoinLift(s: string)
    ensures Join(Lift(s)) == s
  {
    if s != [] {
      assert Lift(s)[1..] == Lift(s[1..]);
      JoinLift(s[1..]);
    }
  }

  /** Joining distributes over concatenation (`a.concat(b).join('')`). */
  lemma {:induction false} JoinAppend(a: seq<Cell>, b: seq<Cell>)
    ensures Join(a + b) == Join(a) + Join(b)
  {
    if a == [] {
      assert a + b == b;
    } else {
      var h := if a[0].Some? then [a[0].value] else [];
      assert (a + b)[0] == a[0];
      assert (a + b)[1..] == a[1..] + b;
      assert Join(a + b) == h + Join(a[1..] + b);
      JoinAppend(a[1..], b);
      assert Join(a) == h + Join(a[1..]);
      assert h + (Join(a[1..]) + Join(b)) == (h + Join(a[1..])) + Join(b);
    }
  }

  /** `s[i]` on a JS string or array: undefined outside the bounds. */
  function At(s: string, i: int): (r: Cell)
    ensures r.Some? <==> 0 <= i < |s|
    ensures r.Some? ==> r.value == s[i]
  {
    if 0 <= i < |s| then Some(s[i]) else None
  }

  /** `vals[k]` on an array of cells: undefined past the end. */
  function Nth(vals: seq<Cell>, k: nat): Cell
  {
    if k < |vals| then vals[k] else None
  }

  // ---------------------------------------------------------------------
  // trimInput

  /** The number of characters of s that are not passthrough characters. */
  function Count(s: string, pass: set<char>): nat
  {
    if s == [] then 0 else (if s[0] in pass then 0 else 1) + Count(s[1..], pass)
  }

  /** trimInput(input, passthrough, zeroth): the non-passthrough characters,
      and a template holding each passthrough character at its place and
      the placeholder z everywhere else. */
  function TrimInput(input: string, pass: set<char>, z: Cell): (r: (string, seq<Cell>))
    ensures |r.0| == Count(input, pass) && |r.1| == |input|
    ensures forall i :: 0 <= i < |r.0| ==> r.0[i] !in pass
    ensures forall i :: 0 <= i < |input| ==>
              r.1[i] == (if input[i] in pass then Some(input[i]) else z)
  {
    if input == [] then ([], [])
    else
      var rest := TrimInput(input[1..], pass, z);
      if input[0] in pass then (rest.0, [Some(input[0])] + rest.1)
      else ([input[0]] + rest.0, [z] + rest.1)
  }

  /** The reference reading of a template: s with its non-passthrough
      characters replaced, in order, by those of c. */
  function Fill(s: string, pass: set<char>, c: string): (r: string)
    requires |c| == Count(s, pass)
    ensures |r| == |s|
  {
    if s == [] then []
    else if s[0] in pass then [s[0]] + Fill(s[1..], pass, c)
    else [c[0]] + Fill(s[1..], pass, c[1..])
  }

  /** The trimmed characters are exactly the non-passthrough characters of
      the input, in order: putting them back gives the input. */
  lemma {:induction false} FillTrimmed(s: string, pass: set<char>, z: Cell)
    ensures Fill(s, pass, TrimInput(s, pass, z).0) == s
  {
    if s != [] {
      FillTrimmed(s[1..], pass, z);
    }
  }

  /** Trimming a filled template gives back the characters put in, and the
      same template, as long as none of them is a passthrough character. */
  lemma {:induction false} TrimFilled(s: string, pass: set<char>, c: string, z: Cell)
    requires |c| == Count(s, pass) && forall i :: 0 <= i < |c| ==> c[i] !in pass
    ensures TrimInput(Fill(s, pass, c), pass, z) == (c, TrimInput(s, pass, z).1)
  {
    if s != [] {
      var r := Fill(s, pass, c);
      if s[0] in pass {
        TrimFilled(s[1..], pass, c, z);
        assert r[1..] == Fill(s[1..], pass, c);
      } else {
        TrimFilled(s[1..], pass, c[1..], z);
        assert r[1..] == Fill(s[1..], pass, c[1..]);
        assert c == [c[0]] + c[1..];
      }
    }
  }

  /** Which positions hold passthrough characters. */
  function Mask(s: string, pass: set<char>): (m: seq<bool>)
    ensures |m| == |s|
  {
    seq(|s|, i requires 0 <= i < |s| => s[i] in pass)
  }

  lemma MaskAppend(a: string, b: string, pass: set<char>)
    ensures Mask(a + b, pass) == Mask(a, pass) + Mask(b, pass)
  {
  }

  /** Filling a template keeps every passthrough character where it was. */
  lemma {:induction false} MaskFill(s: string, pass: set<char>, c: string)
    requires |c| == Count(s, pass) && forall i :: 0 <= i < |c| ==> c[i] !in pass
    ensures Mask(Fill(s, pass, c), pass) == Mask(s, pass)
  {
    if s != [] {
      var r := Fill(s, pass, c);
      if s[0] in pass {
        MaskFill(s[1..], pass, c);
        assert r == [s[0]] + Fill(s[1..], pass, c);
      } else {
        MaskFill(s[1..], pass, c[1..]);
        assert r == [c[0]] + Fill(s[1..], pass, c[1..]);
      }
      assert Mask(r, pass) == Mask(r[..1], pass) + Mask(r[1..], pass) by {
        assert r == r[..1] + r[1..];
        MaskAppend(r[..1], r[1..], pass);
      }
      assert Mask(s, pass) == Mask(s[..1], pass) + Mask(s[1..], pass) by {
        assert s == s[..1] + s[1..];
        MaskAppend(s[..1], s[1..], pass);
      }
    }
  }

  // ---------------------------------------------------------------------
  // The scatter loop

  /** The number of cells of f equal to z. */
  function Occurrences(f: seq<Cell>, z: Cell): nat
  {
    if f == [] then 0 else (if f[0] == z then 1 else 0) + Occurrences(f[1..], z)
  }

  /** The scatter loop: every slot of f equal to the placeholder z (compared
      with ===) receives the next value, undefined once the values run out;
      every other slot is kept. */
  function Scatter(f: seq<Cell>, z: Cell, vals: seq<Cell>): (r: seq<Cell>)
    ensures |r| == |f|
    ensures forall i :: 0 <= i < |f| && f[i] != z ==> r[i] == f[i]
  {
    if f == [] then []
    else if f[0] == z then [Nth(vals, 0)] + Scatter(f[1..], z, if |vals| > 0 then vals[1..] else [])
    else [f[0]] + Scatter(f[1..], z, vals)
  }

  /** The k-th placeholder, counted from 0, receives vals[k]. */
  lemma {:induction false} ScatterOrder(f: seq<Cell>, z: Cell, vals: seq<Cell>, i: nat)
    requires i < |f| && f[i] == z
    ensures Scatter(f, z, vals)[i] == Nth(vals, Occurrences(f[..i], z))
  {
    if i > 0 {
      ScatterOrder(f[1..], z, if f[0] == z then (if |vals| > 0 then vals[1..] else []) else vals, i - 1);
      assert f[..i][1..] == f[1..][..i - 1];
    }
  }

  /** Scattering the characters c into a template built around the
      placeholder z, when z is not a passthrough character, yields the
      reference reading Fill with nothing undefined. */
  lemma {:induction false} ScatterTemplate(s: string, pass: set<char>, z: char, c: string)
    requires z !in pass && |c| == Count(s, pass)
    ensures Scatter(TrimInput(s, pass, Some(z)).1, Some(z), Lift(c)) == Lift(Fill(s, pass, c))
  {
    if s != [] {
      var f := TrimInput(s, pass, Some(z)).1;
      assert f[1..] == TrimInput(s[1..], pass, Some(z)).1;
      if s[0] in pass {
        ScatterTemplate(s[1..], pass, z, c);
      } else {
        assert Lift(c)[1..] == Lift(c[1..]);
        ScatterTemplate(s[1..], pass, z, c[1..]);
      }
    }
  }
}
