/**
  The candidate clean-up of `whichFont`: `entry.replace(re, '$1')` with the
  anchored pattern `^\s*['"]?\s*([^'"]*)\s*['"]?\s*$`.

  Because the pattern is anchored at both ends, the replacement is either the
  captured group (when the pattern matches the whole entry) or the entry
  unchanged. The engine tries the greedy alternative first: leading
  whitespace, then a quote if there is one, then whitespace, then every
  quote-free character up to the next quote or the end (trailing whitespace
  of an unquoted entry is part of the group), then a closing quote and
  whitespace. When that first attempt fails no other attempt succeeds
  (`CaptureComplete`), so the capture is the one `Capture` computes.
*/
module Strip {
  import opened Wrappers
  import opened JsString

  /** The first index at or after `from` that does not hold whitespace. */
  function SkipSpaces(s: string, from: nat): (j: nat)
    requires from <= |s|
    ensures from <= j <= |s|
    ensures forall i :: from <= i < j ==> IsSpace(s[i])
    ensures j < |s| ==> !IsSpace(s[j])
    decreases |s| - from
  {
    if from < |s| && IsSpace(s[from]) then SkipSpaces(s, from + 1) else from
  }

  /** The first index at or after `from` that holds a quote. */
  function SkipNonQuotes(s: string, from: nat): (j: nat)
    requires from <= |s|
    ensures from <= j <= |s|
    ensures forall i :: from <= i < j ==> !IsQuote(s[i])
    ensures j < |s| ==> IsQuote(s[j])
    decreases |s| - from
  {
    if from < |s| && !IsQuote(s[from]) then SkipNonQuotes(s, from + 1) else from
  }

  /** `s[lo..hi]` matches `\s*['"]?\s*`: whitespace and at most one quote. */
  predicate Padding(s: string, lo: nat, hi: nat)
    requires lo <= hi <= |s|
  {
    && (forall i :: lo <= i < hi ==> IsSpace(s[i]) || IsQuote(s[i]))
    && (forall i, j :: lo <= i < j < hi ==> IsSpace(s[i]) || IsSpace(s[j]))
  }

  /** `s[lo..hi]` matches `[^'"]*`. */
  predicate QuoteFree(s: string, lo: nat, hi: nat)
    requires lo <= hi <= |s|
  {
    forall i :: lo <= i < hi ==> !IsQuote(s[i])
  }

  /** The whole of `s` matches the pattern with the group spanning `s[k..p]`. */
  predicate Shape(s: string, k: nat, p: nat)
  {
    k <= p <= |s| && Padding(s, 0, k) && QuoteFree(s, k, p) && Padding(s, p, |s|)
  }

  /** The bounds of the group the engine captures, or None when the pattern
      does not match. */
  function Capture(s: string): (c: Option<(nat, nat)>)
    ensures c.Some? ==> c.value.0 <= c.value.1 <= |s|
  {
    var i := SkipSpaces(s, 0);
    var j := if i < |s| && IsQuote(s[i]) then i + 1 else i;
    var k := SkipSpaces(s, j);
    var p := SkipNonQuotes(s, k);
    var q := if p < |s| then p + 1 else p;
    var e := SkipSpaces(s, q);
    if e == |s| then Some((k, p)) else None
  }

  /** Whenever the scan reports a match, the pattern does match the whole
      entry with the group at the reported bounds. */
  lemma CaptureSound(s: string)
    ensures Capture(s).Some? ==> Shape(s, Capture(s).value.0, Capture(s).value.1)
  {
    var i := SkipSpaces(s, 0);
    var j := if i < |s| && IsQuote(s[i]) then i + 1 else i;
    var k := SkipSpaces(s, j);
    var p := SkipNonQuotes(s, k);
    var q := if p < |s| then p + 1 else p;
    var e := SkipSpaces(s, q);
    if e == |s| {
      assert Padding(s, 0, k) by {
        forall a | 0 <= a < k ensures IsSpace(s[a]) || (a == i && IsQuote(s[a])) { }
      }
      assert Padding(s, p, |s|) by {
        forall a | p <= a < |s| ensures IsSpace(s[a]) || (a == p && IsQuote(s[a])) { }
      }
    }
  }

  /** The entry as `whichFont` checks it: the group when the pattern matches,
      otherwise the entry itself. */
  function StripEntry(s: string): string
  {
    match Capture(s)
    case Some((k, p)) => s[k..p]
    case None => s
  }

  /** The result is the entry itself or a quote-free part of it. */
  lemma StripResult(s: string)
    ensures StripEntry(s) == s || (exists k: nat, p: nat :: Shape(s, k, p) && StripEntry(s) == s[k..p])
    ensures forall i :: 0 <= i < |StripEntry(s)| ==> StripEntry(s) == s || !IsQuote(StripEntry(s)[i])
  {
    CaptureSound(s);
    match Capture(s)
    case Some((k, p)) =>
      assert forall i :: 0 <= i < p - k ==> s[k..p][i] == s[k + i];
    case None =>
  }

  /** `SkipSpaces` stops exactly at the end of a run of whitespace. */
  lemma SkipSpacesAt(s: string, from: nat, t: nat)
    requires from <= t <= |s|
    requires forall x :: from <= x < t ==> IsSpace(s[x])
    requires t < |s| ==> !IsSpace(s[t])
    ensures SkipSpaces(s, from) == t
  {
  }

  /** `SkipNonQuotes` stops exactly at the end of a quote-free run. */
  lemma SkipNonQuotesAt(s: string, from: nat, t: nat)
    requires from <= t <= |s|
    requires forall x :: from <= x < t ==> !IsQuote(s[x])
    requires t < |s| ==> IsQuote(s[t])
    ensures SkipNonQuotes(s, from) == t
  {
  }

  /** If the whole entry matches the pattern in any way at all, the greedy
      scan finds a match: the engine never needs to backtrack. */
  lemma CaptureComplete(s: string, k0: nat, p0: nat)
    requires Shape(s, k0, p0)
    ensures Capture(s).Some?
  {
    var i := SkipSpaces(s, 0);
    var j := if i < |s| && IsQuote(s[i]) then i + 1 else i;
    var k := SkipSpaces(s, j);
    var p := SkipNonQuotes(s, k);
    var q := if p < |s| then p + 1 else p;
    if p < |s| {
      QuoteIsNotSpace(s[p]);
      // The quote at p is not in the group, and it cannot be the leading
      // quote, which the scan has already stepped over; so it belongs to the
      // trailing padding, where no other character is a non-space.
      assert p0 <= p by {
        if p < k0 {
          assert false;
        }
      }
      forall x | q <= x < |s| ensures IsSpace(s[x]) {
        assert IsSpace(s[p]) || IsSpace(s[x]);
      }
    }
    SkipSpacesAt(s, q, |s|);
  }

  /** The scan over an entry laid out as whitespace `[0, open)`, an optional
      quote `[open, afterOpen)`, whitespace `[afterOpen, k)`, a quote-free name
      `[k, p)` starting with a non-space, an optional quote `[p, afterClose)`
      and whitespace `[afterClose, |s|)`. */
  lemma CaptureOfLayout(s: string, open: nat, afterOpen: nat, k: nat, p: nat, afterClose: nat)
    requires open <= afterOpen <= open + 1 && afterOpen <= k < p <= afterClose <= p + 1 && afterClose <= |s|
    requires forall x :: 0 <= x < open ==> IsSpace(s[x])
    requires open < afterOpen ==> IsQuote(s[open])
    requires forall x :: afterOpen <= x < k ==> IsSpace(s[x])
    requires !IsSpace(s[k])
    requires forall x :: k <= x < p ==> !IsQuote(s[x])
    requires p < afterClose ==> IsQuote(s[p])
    requires forall x :: afterClose <= x < |s| ==> IsSpace(s[x])
    ensures Capture(s) == Some((k, if p < afterClose then p else |s|))
  {
    var i := SkipSpaces(s, 0);
    if open < afterOpen {
      QuoteIsNotSpace(s[open]);
      SkipSpacesAt(s, 0, open);
      SkipSpacesAt(s, afterOpen, k);
    } else {
      SkipSpacesAt(s, 0, k);
    }
    if p < afterClose {
      SkipNonQuotesAt(s, k, p);
      SkipSpacesAt(s, p + 1, |s|);
    } else {
      assert forall x :: p <= x < |s| ==> !IsQuote(s[x]) by {
        forall x | p <= x < |s| ensures !IsQuote(s[x]) {
          if IsQuote(s[x]) { QuoteIsNotSpace(s[x]); }
        }
      }
      SkipNonQuotesAt(s, k, |s|);
    }
  }

  /** Whitespace-only sequences. */
  predicate AllSpace(w: string)
  {
    forall i :: 0 <= i < |w| ==> IsSpace(w[i])
  }

  /** Zero or one quote. */
  predicate OptQuote(q: string)
  {
    |q| <= 1 && (|q| == 1 ==> IsQuote(q[0]))
  }

  /** A family name, optionally quoted and surrounded by whitespace, is reduced
      to the bare name, e.g. ` 'Custom Font' ` to `Custom Font`; without a
      closing quote the trailing whitespace stays part of the name. */
  lemma StripQuoted(w1: string, q1: string, w2: string, name: string, q2: string, w3: string)
    requires AllSpace(w1) && AllSpace(w2) && AllSpace(w3)
    requires OptQuote(q1) && OptQuote(q2)
    requires |name| > 0 && !IsSpace(name[0])
    requires forall i :: 0 <= i < |name| ==> !IsQuote(name[i])
    ensures StripEntry(w1 + q1 + w2 + name + q2 + w3) == if q2 == [] then name + w3 else name
  {
    var s := w1 + q1 + w2 + name + q2 + w3;
    var k := |w1| + |q1| + |w2|;
    var p := k + |name|;
    LayoutOfSix(w1, q1, w2, name, q2, w3);
    CaptureOfLayout(s, |w1|, |w1| + |q1|, k, p, p + |q2|);
    SliceOfSix(w1, q1, w2, name, q2, w3);
    if q2 == [] {
      assert name + q2 + w3 == name + w3;
    }
  }

  /** The characters of six concatenated parts, part by part. */
  lemma LayoutOfSix(w1: string, q1: string, w2: string, name: string, q2: string, w3: string)
    requires AllSpace(w1) && AllSpace(w2) && AllSpace(w3)
    requires OptQuote(q1) && OptQuote(q2)
    requires |name| > 0 && !IsSpace(name[0])
    requires forall i :: 0 <= i < |name| ==> !IsQuote(name[i])
    ensures var s := w1 + q1 + w2 + name + q2 + w3;
      var open, afterOpen := |w1|, |w1| + |q1|;
      var k := afterOpen + |w2|;
      var p := k + |name|;
      var afterClose := p + |q2|;
      && (forall x :: 0 <= x < open ==> IsSpace(s[x]))
      && (open < afterOpen ==> IsQuote(s[open]))
      && (forall x :: afterOpen <= x < k ==> IsSpace(s[x]))
      && !IsSpace(s[k])
      && (forall x :: k <= x < p ==> !IsQuote(s[x]))
      && (p < afterClose ==> IsQuote(s[p]))
      && (forall x :: afterClose <= x < |s| ==> IsSpace(s[x]))
  {
    var s := w1 + q1 + w2 + name + q2 + w3;
    var open, afterOpen := |w1|, |w1| + |q1|;
    var k := afterOpen + |w2|;
    var p := k + |name|;
    var afterClose := p + |q2|;
    assert forall x :: 0 <= x < open ==> s[x] == w1[x];
    assert open < afterOpen ==> s[open] == q1[0];
    assert forall x :: afterOpen <= x < k ==> s[x] == w2[x - afterOpen];
    assert forall x :: k <= x < p ==> s[x] == name[x - k];
    assert p < afterClose ==> s[p] == q2[0];
    assert forall x :: afterClose <= x < |s| ==> s[x] == w3[x - afterClose];
  }

  /** The fourth of six concatenated parts, alone and with what follows it. */
  lemma SliceOfSix<T>(a: seq<T>, b: seq<T>, c: seq<T>, d: seq<T>, e: seq<T>, f: seq<T>)
    ensures var s, k := a + b + c + d + e + f, |a| + |b| + |c|;
      s[k..k + |d|] == d && s[k..|s|] == d + e + f
  {
  }

  /** An entry with a quote that has non-space text on both sides does not
      match the pattern and is returned unchanged, e.g. `Foo's Font`. */
  lemma StripKeepsInnerQuote(before: string, quote: char, after: string, x: nat, y: nat)
    requires IsQuote(quote)
    requires x < |before| && !IsSpace(before[x])
    requires y < |after| && !IsSpace(after[y])
    ensures StripEntry(before + [quote] + after) == before + [quote] + after
  {
    var s := before + [quote] + after;
    var m := |before|;
    assert s[x] == before[x] && s[m] == quote && s[m + 1 + y] == after[y];
    QuoteIsNotSpace(quote);
    CaptureSound(s);
    match Capture(s)
    case None =>
    case Some((k, p)) =>
      // The quote is neither in the leading padding (a non-space precedes
      // it), nor in the group, nor in the trailing padding (a non-space
      // follows it).
      if m < k {
        assert false;
      } else if m < p {
        assert false;
      } else {
        assert false;
      }
  }

  /** Stripping twice is stripping once. */
  lemma StripIdempotent(s: string)
    ensures StripEntry(StripEntry(s)) == StripEntry(s)
  {
    match Capture(s)
    case None =>
    case Some((k, p)) =>
      var r := s[k..p];
      assert forall a :: 0 <= a < |r| ==> r[a] == s[k + a];
      assert |r| > 0 ==> !IsSpace(r[0]) by {
        var i := SkipSpaces(s, 0);
        var j := if i < |s| && IsQuote(s[i]) then i + 1 else i;
        assert k == SkipSpaces(s, j);
      }
      assert SkipSpaces(r, 0) == 0;
      assert SkipNonQuotes(r, 0) == |r|;
  }
}
