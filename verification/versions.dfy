/**
 * A concrete version order for the releases the updater compares: dotted
 * natural numbers (`1.7.5`), compared segment by segment, with trailing zero
 * segments ignored (`1.2` and `1.2.0` are the same release). This is the
 * part of PEP 440 ordering that release tags like these exercise; the update
 * logic itself takes the order as a parameter.
 */
module Versions {
  import opened Wrappers
  import opened Text

  /** The segments of a dotted version, or None when some segment is not a
      non-empty run of ASCII digits. */
  function Release(v: string): (r: Option<seq<nat>>)
    ensures r.Some? ==> |r.value| == |Split(v, '.')|
  {
    Segments(Split(v, '.'))
  }

  function Segments(parts: seq<string>): (r: Option<seq<nat>>)
    ensures r.Some? ==> |r.value| == |parts|
  {
    if |parts| == 0 then Some([])
    else if |parts[0]| > 0 && AllDigits(parts[0]) then
      var rest :- Segments(parts[1..]);
      Some([DigitsValue(parts[0])] + rest)
    else None
  }

  /** The segments without their trailing zeros. */
  function Normal(xs: seq<nat>): (r: seq<nat>)
    ensures |r| <= |xs| && r == xs[..|r|]
    ensures |r| > 0 ==> r[|r| - 1] != 0
    ensures forall i :: |r| <= i < |xs| ==> xs[i] == 0
  {
    if |xs| == 0 then []
    else if xs[|xs| - 1] == 0 then Normal(xs[..|xs| - 1])
    else xs
  }

  /** Lexicographic order: the first differing segment decides, and a proper
      prefix comes first. */
  predicate LexLess(a: seq<nat>, b: seq<nat>) {
    |b| > 0 && (|a| == 0 || a[0] < b[0] || (a[0] == b[0] && LexLess(a[1..], b[1..])))
  }

  /** `remote > local`: both are dotted versions and the remote one comes later. */
  predicate Newer(remote: string, local: string) {
    var r, l := Release(remote), Release(local);
    r.Some? && l.Some? && LexLess(Normal(l.value), Normal(r.value))
  }

  lemma {:induction false} LexLessIrreflexive(a: seq<nat>)
    ensures !LexLess(a, a)
  {
    if |a| > 0 {
      LexLessIrreflexive(a[1..]);
    }
  }

  lemma {:induction false} LexLessTransitive(a: seq<nat>, b: seq<nat>, c: seq<nat>)
    requires LexLess(a, b) && LexLess(b, c)
    ensures LexLess(a, c)
  {
    if |a| > 0 && a[0] == b[0] && b[0] == c[0] {
      LexLessTransitive(a[1..], b[1..], c[1..]);
    }
  }

  lemma {:induction false} LexLessTotal(a: seq<nat>, b: seq<nat>)
    ensures a == b || LexLess(a, b) || LexLess(b, a)
  {
    if |a| > 0 && |b| > 0 && a[0] == b[0] {
      LexLessTotal(a[1..], b[1..]);
      if a[1..] == b[1..] {
        assert a == [a[0]] + a[1..] && b == [b[0]] + b[1..];
      }
    }
  }

  /** No version is newer than itself. */
  lemma NewerIrreflexive(v: string)
    ensures !Newer(v, v)
  {
    if Release(v).Some? {
      LexLessIrreflexive(Normal(Release(v).value));
    }
  }

  /** The order is a strict order: never both ways, and transitive. */
  lemma NewerStrictOrder(a: string, b: string, c: string)
    ensures Newer(a, b) ==> !Newer(b, a)
    ensures Newer(a, b) && Newer(b, c) ==> Newer(a, c)
  {
    if Newer(a, b) && Newer(b, a) {
      LexLessTransitive(Normal(Release(a).value), Normal(Release(b).value), Normal(Release(a).value));
      LexLessIrreflexive(Normal(Release(a).value));
    }
    if Newer(a, b) && Newer(b, c) {
      LexLessTransitive(Normal(Release(c).value), Normal(Release(b).value), Normal(Release(a).value));
    }
  }

  /** Two dotted versions that denote different releases are ordered one way
      or the other. */
  lemma NewerTotal(a: string, b: string)
    requires Release(a).Some? && Release(b).Some?
    requires Normal(Release(a).value) != Normal(Release(b).value)
    ensures Newer(a, b) || Newer(b, a)
  {
    LexLessTotal(Normal(Release(a).value), Normal(Release(b).value));
  }

  /** Appending `.0` names the same release: neither is newer. */
  lemma TrailingZeroSameRelease(v: string)
    requires Release(v).Some?
    ensures !Newer(v + ".0", v) && !Newer(v, v + ".0")
  {
    var parts, xs := Split(v, '.'), Release(v).value;
    assert Split(v + ".0", '.') == parts + ["0"] by {
      assert v + ".0" == v + ['.'] + "0";
      SplitAppendPiece(v, '.', "0");
    }
    assert Segments(parts + ["0"]) == Some(xs + [0]) by {
      assert AllDigits("0") && DigitsValue("0") == 0;
      SegmentsAppend(parts, "0", 0);
    }
    assert Normal(xs + [0]) == Normal(xs) by {
      assert (xs + [0])[..|xs|] == xs;
    }
    LexLessIrreflexive(Normal(xs));
  }

  lemma {:induction false} SegmentsAppend(parts: seq<string>, last: string, d: nat)
    requires Segments(parts).Some? && |last| > 0 && AllDigits(last) && DigitsValue(last) == d
    ensures Segments(parts + [last]) == Some(Segments(parts).value + [d])
  {
    if |parts| > 0 {
      assert (parts + [last])[1..] == parts[1..] + [last];
      SegmentsAppend(parts[1..], last, d);
      var first, rest := DigitsValue(parts[0]), Segments(parts[1..]).value;
      assert (parts + [last])[0] == parts[0];
      assert [first] + (rest + [d]) == ([first] + rest) + [d];
    } else {
      assert parts + [last] == [last] && [last][1..] == [];
      assert Segments([last]) == Some([d] + []);
      assert [d] + [] == [] + [d];
    }
  }

  /** `Segments` in terms of its pieces: defined exactly when every piece is
      a non-empty run of digits, and then piece by piece their values. */
  lemma {:induction false} SegmentsSpec(parts: seq<string>)
    ensures Segments(parts).Some? <==> forall i :: 0 <= i < |parts| ==> |parts[i]| > 0 && AllDigits(parts[i])
    ensures Segments(parts).Some? ==> forall i :: 0 <= i < |parts| ==> Segments(parts).value[i] == DigitsValue(parts[i])
  {
    if |parts| > 0 {
      SegmentsSpec(parts[1..]);
      assert forall i :: 1 <= i < |parts| ==> parts[i] == parts[1..][i - 1];
    }
  }
}
