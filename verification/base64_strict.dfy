/**
 * PHP's `base64_decode($s, true)`, which the JWT key check relies on.
 *
 * In strict mode the decoder skips tab, newline, carriage return and space;
 * it fails on any other character outside the Base64 alphabet, on alphabet
 * characters after a `=`, on a last group of one character, and on padding
 * that is longer than two or does not complete a group of four. Padding may
 * be left out. The bits of an incomplete last byte are dropped unchecked.
 *
 * `StrictDecode` states this declaratively; `DecodeStrict` is the scan the
 * PHP runtime performs, one character at a time.
 */
module Base64Strict {
  import opened Common

  newtype byte = x: int | 0 <= x < 256

  predicate IsAlphabet(c: char) {
    ('A' <= c <= 'Z') || ('a' <= c <= 'z') || ('0' <= c <= '9') || c == '+' || c == '/'
  }

  /** The characters the strict decoder skips. */
  predicate IsSkipped(c: char) {
    c == '\t' || c == '\n' || c == '\r' || c == ' '
  }

  /** The six bits an alphabet character stands for. */
  function SextetValue(c: char): (v: int)
    requires IsAlphabet(c)
    ensures 0 <= v < 64
  {
    if 'A' <= c <= 'Z' then c as int - 'A' as int
    else if 'a' <= c <= 'z' then c as int - 'a' as int + 26
    else if '0' <= c <= '9' then c as int - '0' as int + 52
    else if c == '+' then 62
    else 63
  }

  predicate AllAlphabet(d: seq<char>) {
    forall i :: 0 <= i < |d| ==> IsAlphabet(d[i])
  }

  predicate AllPad(p: seq<char>) {
    forall i :: 0 <= i < |p| ==> p[i] == '='
  }

  /** The input without the skipped characters. */
  function Compact(s: seq<char>): (t: seq<char>)
    ensures |t| <= |s|
    ensures forall i :: 0 <= i < |t| ==> !IsSkipped(t[i])
  {
    if s == [] then []
    else Compact(s[..|s| - 1]) + (if IsSkipped(s[|s| - 1]) then [] else [s[|s| - 1]])
  }

  /** The length of the longest prefix of alphabet characters. */
  function AlphaRun(t: seq<char>): (k: nat)
    ensures k <= |t| && AllAlphabet(t[..k])
    ensures k < |t| ==> !IsAlphabet(t[k])
  {
    if t == [] || !IsAlphabet(t[0]) then 0
    else
      var k := 1 + AlphaRun(t[1..]);
      assert forall i :: 1 <= i < k ==> t[..k][i] == t[1..][..k - 1][i - 1];
      k
  }

  /** Strictly valid input: alphabet characters then padding only, with the group rules. */
  predicate Valid(s: seq<char>) {
    var t := Compact(s);
    var k := AlphaRun(t);
    && AllPad(t[k..])
    && k % 4 != 1
    && (k == |t| || (|t| - k <= 2 && |t| % 4 == 0))
  }

  function Sextets(d: seq<char>): (xs: seq<int>)
    requires AllAlphabet(d)
    ensures |xs| == |d|
    ensures forall i :: 0 <= i < |d| ==> xs[i] == SextetValue(d[i])
  {
    if d == [] then [] else Sextets(d[..|d| - 1]) + [SextetValue(d[|d| - 1])]
  }

  predicate AllSextets(xs: seq<int>) {
    forall i :: 0 <= i < |xs| ==> 0 <= xs[i] < 64
  }

  /** The bytes four sextets make (three), or the complete bytes of a shorter tail. */
  function Pack(xs: seq<int>): seq<byte>
    requires AllSextets(xs)
  {
    if |xs| < 2 then []
    else
      var b0 := (xs[0] * 4 + xs[1] / 16) as byte;
      if |xs| == 2 then [b0]
      else
        var b1 := ((xs[1] % 16) * 16 + xs[2] / 4) as byte;
        if |xs| == 3 then [b0, b1]
        else [b0, b1, ((xs[2] % 4) * 64 + xs[3]) as byte] + Pack(xs[4..])
  }

  /** `base64_decode($s, true)`: the bytes, or `false` (`None`). */
  function StrictDecode(s: seq<char>): (r: Option<seq<byte>>)
    ensures r.Some? <==> Valid(s)
  {
    if !Valid(s) then None
    else
      var t := Compact(s);
      Some(Pack(Sextets(t[..AlphaRun(t)])))
  }

  // ---------------------------------------------------------------------------
  // The scan
  // ---------------------------------------------------------------------------

  function Pads(n: nat): (p: seq<char>)
    ensures |p| == n && AllPad(p)
  {
    seq(n, _ => '=')
  }

  lemma {:induction false} CompactPrefix(s: seq<char>, m: nat)
    requires m <= |s|
    ensures Compact(s[..m]) <= Compact(s)
    decreases |s|
  {
    if m < |s| {
      var s' := s[..|s| - 1];
      assert s[..m] == s'[..m];
      CompactPrefix(s', m);
    } else {
      assert s[..m] == s;
    }
  }

  /** The run stops at the first character after the alphabet prefix `d` that is not in the alphabet. */
  lemma AlphaRunStops(t: seq<char>, d: seq<char>, x: char)
    requires AllAlphabet(d) && !IsAlphabet(x) && d + [x] <= t
    ensures AlphaRun(t) == |d|
  {
    var k := AlphaRun(t);
    assert forall j :: 0 <= j < k ==> IsAlphabet(t[j]) by {
      forall j | 0 <= j < k ensures IsAlphabet(t[j]) { assert t[..k][j] == t[j]; }
    }
    assert forall j :: 0 <= j < |d| ==> t[j] == d[j] by {
      forall j | 0 <= j < |d| ensures t[j] == d[j] { assert (d + [x])[j] == d[j]; }
    }
    assert t[|d|] == x by { assert (d + [x])[|d|] == x; }
  }

  lemma AlphaRunAll(d: seq<char>)
    requires AllAlphabet(d)
    ensures AlphaRun(d) == |d|
  {
  }

  /** A character the scan fails on makes the whole input invalid. */
  lemma FailingPrefix(s: seq<char>, n: nat, d: seq<char>, padding: nat)
    requires n < |s| && AllAlphabet(d)
    requires Compact(s[..n]) == d + Pads(padding)
    requires !IsSkipped(s[n]) && s[n] != '='
    requires !IsAlphabet(s[n]) || padding > 0
    ensures !Valid(s)
  {
    var t := Compact(s);
    assert s[..n + 1][..n] == s[..n];
    assert Compact(s[..n + 1]) == d + Pads(padding) + [s[n]];
    CompactPrefix(s, n + 1);
    if padding > 0 {
      assert d + ['='] <= t by {
        assert (d + Pads(padding) + [s[n]])[..|d| + 1] == d + ['='];
      }
      AlphaRunStops(t, d, '=');
      assert t[|d|..][padding] == s[n];
    } else {
      assert d + [s[n]] <= t by {
        assert d + Pads(padding) + [s[n]] == d + [s[n]];
      }
      AlphaRunStops(t, d, s[n]);
      assert t[|d|..][0] == s[n];
    }
  }

  /** One more character extends the compacted prefix by itself, unless it is skipped. */
  lemma CompactStep(s: seq<char>, n: nat)
    requires n < |s|
    ensures Compact(s[..n + 1]) == Compact(s[..n]) + (if IsSkipped(s[n]) then [] else [s[n]])
  {
    assert s[..n + 1][..n] == s[..n];
  }

  /** Once the whole input is split into data `d` and `padding` signs, the group rules decide. */
  lemma ScanDecides(s: seq<char>, d: seq<char>, padding: nat)
    requires AllAlphabet(d) && Compact(s) == d + Pads(padding)
    ensures StrictDecode(s) ==
      if |d| % 4 == 1 || (padding > 0 && (padding > 2 || (|d| + padding) % 4 != 0)) then None
      else Some(Pack(Sextets(d)))
  {
    var t := Compact(s);
    if padding > 0 {
      assert d + ['='] <= t by {
        assert (d + Pads(padding))[..|d| + 1] == d + ['='];
      }
      AlphaRunStops(t, d, '=');
    } else {
      assert t == d;
      AlphaRunAll(d);
    }
    assert t[..AlphaRun(t)] == d;
    assert t[AlphaRun(t)..] == Pads(padding);
  }

  /** At the end of the scan the counts decide, and the collected sextets are the data's. */
  lemma ScanEnd(s: seq<char>, d: seq<char>, padding: nat)
    requires AllAlphabet(d) && Compact(s[..|s|]) == d + Pads(padding)
    ensures AllSextets(Sextets(d))
    ensures StrictDecode(s) ==
      if |d| % 4 == 1 || (padding > 0 && (padding > 2 || (|d| + padding) % 4 != 0)) then None
      else Some(Pack(Sextets(d)))
  {
    assert s[..|s|] == s;
    ScanDecides(s, d, padding);
  }

  /** A padding sign extends the padding of the compacted prefix. */
  lemma PadStep(s: seq<char>, n: nat, d: seq<char>, padding: nat)
    requires n < |s| && s[n] == '=' && Compact(s[..n]) == d + Pads(padding)
    ensures Compact(s[..n + 1]) == d + Pads(padding + 1)
  {
    CompactStep(s, n);
    assert Pads(padding) + ['='] == Pads(padding + 1);
  }

  /** A skipped character leaves the compacted prefix as it was. */
  lemma SkipStep(s: seq<char>, n: nat, d: seq<char>, padding: nat)
    requires n < |s| && IsSkipped(s[n]) && Compact(s[..n]) == d + Pads(padding)
    ensures Compact(s[..n + 1]) == d + Pads(padding)
  {
    CompactStep(s, n);
  }

  /** Before any padding, a data character extends the data run. */
  lemma DataStep(s: seq<char>, n: nat, d: seq<char>)
    requires n < |s| && AllAlphabet(d) && IsAlphabet(s[n]) && Compact(s[..n]) == d + Pads(0)
    ensures AllAlphabet(d + [s[n]])
    ensures Compact(s[..n + 1]) == (d + [s[n]]) + Pads(0)
  {
    CompactStep(s, n);
    assert Pads(0) == [];
  }

  /**
   * The decoder's loop: count the data characters and the `=` seen, fail on
   * a bad character or on data after padding, then apply the group rules.
   */
  method DecodeStrict(s: seq<char>) returns (r: Option<seq<byte>>)
    ensures r == StrictDecode(s)
  {
    var padding: nat := 0;
    var d: seq<char> := [];
    var n := 0;
    while n < |s|
      invariant 0 <= n <= |s|
      invariant AllAlphabet(d)
      invariant Compact(s[..n]) == d + Pads(padding)
    {
      var c := s[n];
      if c == '=' {
        PadStep(s, n, d, padding);
        padding := padding + 1;
      } else if IsSkipped(c) {
        SkipStep(s, n, d, padding);
      } else if !IsAlphabet(c) || padding > 0 {
        FailingPrefix(s, n, d, padding);
        return None;
      } else {
        DataStep(s, n, d);
        d := d + [c];
      }
      n := n + 1;
    }
    ScanEnd(s, d, padding);
    if |d| % 4 == 1 || (padding > 0 && (padding > 2 || (|d| + padding) % 4 != 0)) {
      r := None;
    } else {
      r := Some(Pack(Sextets(d)));
    }
  }

  // ---------------------------------------------------------------------------
  // Properties
  // ---------------------------------------------------------------------------

  /** Every four data characters give three bytes; a tail of two or three gives one or two. */
  lemma {:induction false} PackLength(xs: seq<int>)
    requires AllSextets(xs)
    ensures |Pack(xs)| == |xs| / 4 * 3 + (if |xs| % 4 == 3 then 2 else if |xs| % 4 == 2 then 1 else 0)
    decreases |xs|
  {
    if |xs| >= 4 {
      PackLength(xs[4..]);
    }
  }

  /** Skipped characters do not change the outcome: they may be inserted anywhere. */
  lemma SkippedIgnored(a: seq<char>, b: seq<char>, c: char)
    requires IsSkipped(c)
    ensures Compact(a + [c] + b) == Compact(a + b)
  {
    CompactAppend(a + [c], b);
    CompactAppend(a, b);
    CompactAppend(a, [c]);
    assert Compact([c]) == Compact([]) + [] by {
      assert [c][..0] == [];
    }
  }

  lemma {:induction false} CompactAppend(a: seq<char>, b: seq<char>)
    ensures Compact(a + b) == Compact(a) + Compact(b)
    decreases |b|
  {
    if b == [] {
      assert a + b == a;
    } else {
      var b' := b[..|b| - 1];
      assert (a + b)[..|a + b| - 1] == a + b';
      CompactAppend(a, b');
    }
  }

  /** Data characters followed by `p` padding signs decode exactly when the group rules allow. */
  lemma PaddedData(d: seq<char>, p: nat)
    requires AllAlphabet(d)
    ensures Valid(d + Pads(p)) <==> |d| % 4 != 1 && (p == 0 || (p <= 2 && (|d| + p) % 4 == 0))
  {
    var s := d + Pads(p);
    forall i | 0 <= i < |s| ensures !IsSkipped(s[i]) {
      if i < |d| { assert s[i] == d[i]; } else { assert s[i] == Pads(p)[i - |d|]; }
    }
    CompactNoSkipped(s);
    ScanDecides(s, d, p);
  }

  /**
   * The group rules on data characters alone: padding may be left out, but a
   * last group of one never decodes, and `=` and `==` only complete groups of
   * three and two.
   */
  lemma GroupRules(d: seq<char>)
    requires AllAlphabet(d)
    ensures Valid(d) <==> |d| % 4 != 1
    ensures Valid(d + "=") <==> |d| % 4 == 3
    ensures Valid(d + "==") <==> |d| % 4 == 2
  {
    PaddedData(d, 0);
    assert d + Pads(0) == d by { assert Pads(0) == []; }
    PaddedData(d, 1);
    assert d + "=" == d + Pads(1) by { assert Pads(1) == "="; }
    PaddedData(d, 2);
    assert d + "==" == d + Pads(2) by { assert Pads(2) == "=="; }
  }

  lemma {:induction false} CompactNoSkipped(s: seq<char>)
    requires forall i :: 0 <= i < |s| ==> !IsSkipped(s[i])
    ensures Compact(s) == s
  {
    if s != [] {
      var init := s[..|s| - 1];
      CompactNoSkipped(init);
      assert !IsSkipped(s[|s| - 1]);
      assert Compact(s) == init + [s[|s| - 1]];
      assert init + [s[|s| - 1]] == s;
    }
  }
}
