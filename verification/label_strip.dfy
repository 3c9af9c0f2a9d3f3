/**
 * The label normalisation of the fastText detector: Python's
 * `label.replace("__label__", "")`, which removes every non-overlapping
 * occurrence of the marker in one left-to-right pass (it is not a prefix
 * removal, and it is not repeated until no marker is left).
 */
module LabelStrip {

  /** The decoration fastText puts on every label it returns, as in `__label__en`. */
  const Marker: string := "__label__"

  /** The marker starts at index `i` of `s`. */
  predicate OccursAt(s: string, i: int) {
    0 <= i && i + |Marker| <= |s| && s[i..i + |Marker|] == Marker
  }

  /** `Marker in s`. */
  predicate ContainsMarker(s: string) {
    exists i | 0 <= i <= |s| :: OccursAt(s, i)
  }

  /** Occurrences in the tail of `s` are the occurrences in `s` shifted by one. */
  lemma OccursInTail(s: string)
    requires s != []
    ensures forall i :: OccursAt(s[1..], i) ==> OccursAt(s, i + 1)
    ensures forall i :: 1 <= i && OccursAt(s, i) ==> OccursAt(s[1..], i - 1)
  {
  }

  /**
   * `s.find(Marker)`: the index of the leftmost occurrence of the marker,
   * or -1 when there is none.
   */
  function Find(s: string): (r: int)
    ensures r == -1 <==> !ContainsMarker(s)
    ensures r != -1 ==> OccursAt(s, r)
    ensures r != -1 ==> forall j :: 0 <= j < r ==> !OccursAt(s, j)
    decreases |s|
  {
    if s == [] then -1
    else if OccursAt(s, 0) then 0
    else
      OccursInTail(s);
      var r' := Find(s[1..]);
      if r' == -1 then -1 else r' + 1
  }

  /**
   * `s.replace(Marker, "")`: scanning from the left, an occurrence of the
   * marker is skipped as a whole and the scan resumes right after it; any
   * other character is kept.
   */
  function Strip(s: string): (r: string)
    ensures |r| <= |s|
    ensures (|s| - |r|) % |Marker| == 0
    decreases |s|
  {
    if s == [] then []
    else if OccursAt(s, 0) then Strip(s[|Marker|..])
    else [s[0]] + Strip(s[1..])
  }

  /** A string without the marker is returned unchanged. */
  lemma {:induction false} StripWithoutMarker(s: string)
    requires !ContainsMarker(s)
    ensures Strip(s) == s
    decreases |s|
  {
    if s != [] {
      assert !OccursAt(s, 0);
      OccursInTail(s);
      assert !ContainsMarker(s[1..]) by {
        forall i ensures !OccursAt(s[1..], i) {
          assert !OccursAt(s, i + 1);
        }
      }
      StripWithoutMarker(s[1..]);
      assert s == [s[0]] + s[1..];
    }
  }

  /** A stretch with no occurrence starting in it is copied through unchanged. */
  lemma {:induction false} StripCopiesUnmatchedPrefix(s: string, i: nat)
    requires i <= |s|
    requires forall j :: 0 <= j < i ==> !OccursAt(s, j)
    ensures Strip(s) == s[..i] + Strip(s[i..])
    decreases i
  {
    if i > 0 {
      var t := s[1..];
      assert !OccursAt(s, 0);
      assert Strip(s) == [s[0]] + Strip(t);
      OccursInTail(s);
      StripCopiesUnmatchedPrefix(t, i - 1);
      assert t[i - 1..] == s[i..];
      assert s[..i] == [s[0]] + t[..i - 1];
    }
  }

  /** An occurrence with no earlier one is dropped as a whole. */
  lemma StripSkipsFirstMarker(s: string, i: nat)
    requires OccursAt(s, i)
    requires forall j :: 0 <= j < i ==> !OccursAt(s, j)
    ensures Strip(s) == s[..i] + Strip(s[i + |Marker|..])
  {
    StripCopiesUnmatchedPrefix(s, i);
    var u := s[i..];
    assert u[..|Marker|] == s[i..i + |Marker|];
    assert OccursAt(u, 0);
    assert u[|Marker|..] == s[i + |Marker|..];
  }

  /**
   * Strip agrees with CPython's replace loop: find the leftmost occurrence,
   * copy what precedes it, drop it and carry on after it.
   */
  lemma StripAtFirstOccurrence(s: string)
    requires ContainsMarker(s)
    ensures 0 <= Find(s) && Find(s) + |Marker| <= |s|
    ensures Strip(s) == s[..Find(s)] + Strip(s[Find(s) + |Marker|..])
  {
    var i := Find(s);
    assert i != -1;
    assert OccursAt(s, i);
    StripSkipsFirstMarker(s, i);
  }

  /** Strip changes a string exactly when the string contains the marker. */
  lemma StripFixesExactlyUnmarked(s: string)
    ensures Strip(s) == s <==> !ContainsMarker(s)
  {
    if ContainsMarker(s) {
      StripAtFirstOccurrence(s);
      assert |Strip(s)| < |s|;
    } else {
      StripWithoutMarker(s);
    }
  }

  /** A decorated label `__label__c` loses its decoration and nothing else. */
  lemma StripDecoratedLabel(c: string)
    requires !ContainsMarker(c)
    ensures Strip(Marker + c) == c
  {
    assert OccursAt(Marker + c, 0);
    assert (Marker + c)[|Marker|..] == c;
    StripWithoutMarker(c);
  }

  /** The fastText label of English loses its decoration. */
  lemma StripEnglishLabel()
    ensures Strip("__label__en") == "en"
  {
    assert "__label__en" == Marker + "en";
    assert !ContainsMarker("en");
    StripDecoratedLabel("en");
  }

  /** The marker is removed wherever it stands, not only at the front. */
  lemma StripRemovesTrailingMarker()
    ensures Strip("en" + Marker) == "en"
  {
    var s := "en" + Marker;
    assert !OccursAt(s, 0) by { assert s[0..|Marker|][0] == 'e'; }
    assert !OccursAt(s, 1) by { assert s[1..1 + |Marker|][0] == 'n'; }
    assert OccursAt(s, 2) by { assert s[2..2 + |Marker|] == Marker; }
    StripSkipsFirstMarker(s, 2);
    assert s[2 + |Marker|..] == [];
    assert s[..2] == "en";
  }

  /**
   * One pass only: removing the marker inside `____label__label__` joins its
   * two neighbours into a new marker, which the result keeps.
   */
  lemma StripIsSinglePass()
    ensures Strip(Marker[..2] + Marker + Marker[2..]) == Marker
  {
    var s := Marker[..2] + Marker + Marker[2..];
    assert !OccursAt(s, 0) by { assert s[0..|Marker|][2] == '_'; }
    assert !OccursAt(s, 1) by { assert s[1..1 + |Marker|][2] == '_'; }
    assert OccursAt(s, 2) by { assert s[2..2 + |Marker|] == Marker; }
    StripSkipsFirstMarker(s, 2);
    assert s[2 + |Marker|..] == Marker[2..];
    assert !ContainsMarker(Marker[2..]);
    StripWithoutMarker(Marker[2..]);
    assert s[..2] == Marker[..2];
  }
}
