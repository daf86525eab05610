/** The POSIX path operations the upload handler calls: `os.path.join` of two
    components, the final-component split and `os.path.splitext`. */
module PathExt {
  import opened Strings

  const Sep: char := '/'
  const ExtSep: char := '.'

  /** The scan `splitext` makes over the final component, from its first
      character up to the last dot: every character of `p` at an index in
      `[i, j)` is a dot. */
  predicate DotsBetween(p: string, i: int, j: int)
    requires 0 <= i && j <= |p|
    decreases j - i
  {
    i >= j || (p[i] == ExtSep && DotsBetween(p, i + 1, j))
  }

  /** Every character of `s` is a dot (vacuously true of the empty string). */
  predicate AllDots(s: string) {
    DotsBetween(s, 0, |s|)
  }

  /** DotsBetween says what its name says. */
  lemma {:induction false} DotsBetweenMeans(p: string, i: int, j: int)
    requires 0 <= i && j <= |p|
    ensures DotsBetween(p, i, j) <==> forall k :: i <= k < j ==> p[k] == ExtSep
    decreases j - i
  {
    if i < j {
      DotsBetweenMeans(p, i + 1, j);
    }
  }

  /** Two strings with dots at the same places scan alike. */
  lemma {:induction false} DotsBetweenSame(p: string, q: string, i: int, j: int)
    requires 0 <= i && j <= |p| && j <= |q|
    requires forall k :: i <= k < j ==> (p[k] == ExtSep <==> q[k] == ExtSep)
    ensures DotsBetween(p, i, j) == DotsBetween(q, i, j)
    decreases j - i
  {
    if i < j {
      DotsBetweenSame(p, q, i + 1, j);
    }
  }

  /** Two strings with dots at the same places, `off` apart, scan alike. */
  lemma {:induction false} DotsBetweenAgree(p: string, q: string, i: int, j: int, off: int)
    requires 0 <= i && j <= |p| && 0 <= i + off && j + off <= |q|
    requires forall k :: i <= k < j ==> (p[k] == ExtSep <==> q[k + off] == ExtSep)
    ensures DotsBetween(p, i, j) == DotsBetween(q, i + off, j + off)
    decreases j - i
  {
    if i < j {
      DotsBetweenAgree(p, q, i + 1, j, off);
    }
  }

  /** An extension as `splitext` yields one: empty, or a dot followed by
      characters that are neither a dot nor a separator. */
  predicate IsExtension(e: string) {
    e == [] ||
    (e[0] == ExtSep && forall k :: 0 <= k < |e| ==> e[k] != Sep && (0 < k ==> e[k] != ExtSep))
  }

  /** The final path component: everything after the last separator. */
  function Basename(p: string): (b: string)
    ensures Sep !in b
    ensures |b| <= |p| && p[|p| - |b|..] == b
    ensures |b| == |p| || p[|p| - |b| - 1] == Sep
  {
    LastIndexOfNoLater(p, Sep);
    p[LastIndexOf(p, Sep) + 1..]
  }

  /** `os.path.splitext` on a POSIX path. The extension starts at the last dot,
      provided that dot lies in the final component and is preceded there by
      some character other than a dot; otherwise the extension is empty. */
  function SplitExt(p: string): (r: (string, string))
    ensures r.0 + r.1 == p
    ensures IsExtension(r.1)
  {
    var sepIndex := LastIndexOf(p, Sep);
    var dotIndex := LastIndexOf(p, ExtSep);
    LastIndexOfNoLater(p, Sep);
    LastIndexOfNoLater(p, ExtSep);
    if dotIndex > sepIndex && !DotsBetween(p, sepIndex + 1, dotIndex) then
      assert forall k :: 0 <= k < |p| - dotIndex ==> p[dotIndex..][k] == p[dotIndex + k];
      (p[..dotIndex], p[dotIndex..])
    else
      (p, [])
  }

  /** `os.path.splitext(p)[1]`. */
  function ExtOf(p: string): string {
    SplitExt(p).1
  }

  /** The extension is an extension-shaped tail of the path. */
  lemma {:induction false} ExtOfIsSuffix(p: string)
    ensures IsExtension(ExtOf(p))
    ensures |ExtOf(p)| <= |p| && p[|p| - |ExtOf(p)|..] == ExtOf(p)
  {
    var r := SplitExt(p);
    assert p[|r.0|..] == r.1;
  }

  /** `os.path.join(a, b)` for two components. */
  function Join(a: string, b: string): (p: string)
    ensures (b == [] || b[0] != Sep) ==> |a| <= |p| && p[..|a|] == a
  {
    if b != [] && b[0] == Sep then b
    else if a == [] || a[|a| - 1] == Sep then a + b
    else a + [Sep] + b
  }

  /** Joining a name without separators onto a directory yields a path whose
      final component is that name. */
  lemma BasenameOfJoin(a: string, b: string)
    requires b != [] && Sep !in b
    ensures Basename(Join(a, b)) == b
  {
    var p := Join(a, b);
    var head := p[..|p| - |b|];
    assert p == head + b;
    LastIndexOfUnique(b, Sep, -1);
    LastIndexOfAppend(head, b, Sep);
    if head != [] {
      LastIndexOfUnique(head, Sep, |head| - 1);
    }
  }

  /** `ExtOf` read off the two indices that `rfind` would return. */
  lemma ExtOfAt(p: string, s: int, d: int)
    requires -1 <= s < |p| && (0 <= s ==> p[s] == Sep)
    requires forall j :: s < j < |p| ==> p[j] != Sep
    requires -1 <= d < |p| && (0 <= d ==> p[d] == ExtSep)
    requires forall j :: d < j < |p| ==> p[j] != ExtSep
    ensures ExtOf(p) == if d > s && !DotsBetween(p, s + 1, d) then p[d..] else []
  {
    LastIndexOfUnique(p, Sep, s);
    LastIndexOfUnique(p, ExtSep, d);
  }

  /** The extension of a name joined onto a directory is the name's own. */
  lemma ExtOfJoin(a: string, b: string)
    requires b != [] && Sep !in b
    ensures ExtOf(Join(a, b)) == ExtOf(b)
  {
    BasenameOfJoin(a, b);
    ExtOfBasename(Join(a, b));
  }

  /** Only the final component decides the extension. */
  lemma {:induction false} ExtOfBasename(p: string)
    ensures ExtOf(p) == ExtOf(Basename(p))
  {
    var s := LastIndexOf(p, Sep);
    var d := LastIndexOf(p, ExtSep);
    if d > s {
      ExtOfBasenameDotted(p, s, d, Basename(p));
    } else {
      ExtOfBasenameUndotted(p, s, d, Basename(p));
    }
  }

  /** The case of ExtOfBasename where the final component `b` holds no dot. */
  lemma {:induction false} ExtOfBasenameUndotted(p: string, s: int, d: int, b: string)
    requires s == LastIndexOf(p, Sep) && d == LastIndexOf(p, ExtSep) && d <= s
    requires b == p[s + 1..]
    ensures ExtOf(p) == [] && ExtOf(b) == []
  {
    FinalComponentUndotted(p, s, d, b);
  }

  /** With no dot after the last separator, the final component has no extension. */
  lemma {:induction false} FinalComponentUndotted(p: string, s: int, d: int, b: string)
    requires s == LastIndexOf(p, Sep) && d == LastIndexOf(p, ExtSep) && d <= s
    requires b == p[s + 1..]
    ensures ExtOf(b) == []
  {
    LastIndexOfNoLater(p, Sep);
    LastIndexOfNoLater(p, ExtSep);
    forall j | 0 <= j < |b| ensures b[j] != Sep && b[j] != ExtSep {
      assert b[j] == p[s + 1 + j];
    }
    ExtOfAt(b, -1, -1);
  }

  /** The case of ExtOfBasename where the last dot lies in the final component `b`. */
  lemma {:induction false} ExtOfBasenameDotted(p: string, s: int, d: int, b: string)
    requires s == LastIndexOf(p, Sep) && d == LastIndexOf(p, ExtSep) && d > s
    requires b == p[s + 1..]
    ensures ExtOf(p) == ExtOf(b)
  {
    ExtOfFinalComponent(p, s, d, b);
    ScanSuffix(p, s + 1, d, b);
  }

  /** The extension of the final component, read off the path's indices. */
  lemma {:induction false} ExtOfFinalComponent(p: string, s: int, d: int, b: string)
    requires s == LastIndexOf(p, Sep) && d == LastIndexOf(p, ExtSep) && d > s
    requires b == p[s + 1..]
    ensures ExtOf(b) == if DotsBetween(b, 0, d - (s + 1)) then [] else b[d - (s + 1)..]
  {
    FinalComponentDotted(p, s, d, b);
    ExtOfNameAt(b, d - (s + 1));
  }

  /** With a dot after the last separator, the final component `b` has no
      separator and its last dot sits where the path's does. */
  lemma {:induction false} FinalComponentDotted(p: string, s: int, d: int, b: string)
    requires s == LastIndexOf(p, Sep) && d == LastIndexOf(p, ExtSep) && d > s
    requires b == p[s + 1..]
    ensures Sep !in b
    ensures b[d - (s + 1)] == ExtSep
    ensures forall j :: d - (s + 1) < j < |b| ==> b[j] != ExtSep
  {
    LastIndexOfNoLater(p, Sep);
    LastIndexOfNoLater(p, ExtSep);
    forall j | 0 <= j < |b| ensures b[j] == p[s + 1 + j] {
    }
  }

  /** Scanning `p` from `n` to `d` is scanning its suffix at `n` from 0, and
      the suffix's tail at `d - n` is the path's tail at `d`. */
  lemma {:induction false} ScanSuffix(p: string, n: int, d: int, b: string)
    requires 0 <= n <= d <= |p|
    requires b == p[n..]
    ensures DotsBetween(p, n, d) == DotsBetween(b, 0, d - n)
    ensures b[d - n..] == p[d..]
  {
    forall k | n <= k < d ensures p[k] == ExtSep <==> b[k - n] == ExtSep {
      assert b[k - n] == p[k];
    }
    DotsBetweenAgree(p, b, n, d, -n);
    SliceShift(p, n, d - n, d - n);
  }

  /** `ExtOf` of a name without separators whose last dot is at `d`. */
  lemma {:induction false} ExtOfNameAt(b: string, d: int)
    requires Sep !in b
    requires 0 <= d < |b| && b[d] == ExtSep
    requires forall j :: d < j < |b| ==> b[j] != ExtSep
    ensures ExtOf(b) == if DotsBetween(b, 0, d) then [] else b[d..]
  {
    ExtOfAt(b, -1, d);
  }

  /** A name whose last dot is preceded by a non-dot character has the
      extension that starts at that dot: `a.wav.mp3` has `.mp3`. */
  lemma {:induction false} ExtOfDottedName(stem: string, x: string)
    requires Sep !in stem && !AllDots(stem)
    requires ExtSep !in x && Sep !in x
    ensures Sep !in stem + [ExtSep] + x
    ensures ExtOf(stem + [ExtSep] + x) == [ExtSep] + x
  {
    var p := stem + [ExtSep] + x;
    DottedNameLayout(stem, x, p);
    ExtOfAt(p, -1, |stem|);
  }

  /** Where the separators and dots of `stem.x` are. */
  lemma {:induction false} DottedNameLayout(stem: string, x: string, p: string)
    requires Sep !in stem && ExtSep !in x && Sep !in x
    requires p == stem + [ExtSep] + x
    ensures Sep !in p && p[|stem|] == ExtSep
    ensures forall j :: |stem| < j < |p| ==> p[j] != ExtSep
    ensures DotsBetween(p, 0, |stem|) == DotsBetween(stem, 0, |stem|)
    ensures p[|stem|..] == [ExtSep] + x
  {
    forall j | 0 <= j < |p| ensures p[j] != Sep && (j < |stem| ==> p[j] == stem[j]) && (|stem| < j ==> p[j] != ExtSep) {
      if j < |stem| { assert p[j] == stem[j]; }
      else if j > |stem| { assert p[j] == x[j - |stem| - 1]; }
    }
    DotsBetweenSame(p, stem, 0, |stem|);
    assert p[|stem|..] == [ExtSep] + x;
  }

  /** A dotted name staged inside a directory keeps its last suffix. */
  lemma {:induction false} ExtOfJoinDotted(folder: string, stem: string, x: string)
    requires Sep !in stem && !AllDots(stem)
    requires ExtSep !in x && Sep !in x
    ensures ExtOf(Join(folder, stem + [ExtSep] + x)) == [ExtSep] + x
  {
    ExtOfDottedName(stem, x);
    ExtOfJoin(folder, stem + [ExtSep] + x);
  }

  /** A name made of leading dots and then no further dot has no extension:
      `.wav` and `..wav` both split to an empty extension. */
  lemma {:induction false} ExtOfLeadingDots(dots: string, x: string)
    requires dots != [] && AllDots(dots)
    requires ExtSep !in x && Sep !in x
    ensures ExtOf(dots + x) == []
  {
    var p := dots + x;
    var d := |dots| - 1;
    DotsBetweenMeans(dots, 0, |dots|);
    forall j | 0 <= j < |p| ensures p[j] != Sep && (j < |dots| ==> p[j] == ExtSep) && (d < j ==> p[j] != ExtSep) {
      if j >= |dots| { assert p[j] == x[j - |dots|]; } else { assert p[j] == dots[j]; }
    }
    DotsBetweenMeans(p, 0, d);
    ExtOfAt(p, -1, d);
  }

  /** A name without any dot has no extension. */
  lemma ExtOfNoDot(name: string)
    requires ExtSep !in name
    ensures ExtOf(name) == []
  {
    LastIndexOfUnique(name, ExtSep, -1);
  }

  /** Lower-casing a path and then splitting gives the lowered extension:
      the separator and the dot are not letters, so they stay where they are. */
  lemma {:induction false} ExtOfLower(p: string)
    ensures ExtOf(Lower(p)) == Lower(ExtOf(p))
  {
    LastIndexOfLower(p, Sep);
    LastIndexOfLower(p, ExtSep);
    var s := LastIndexOf(p, Sep);
    var d := LastIndexOf(p, ExtSep);
    if d > s {
      ExtOfLowerDotted(p, s, d);
    } else {
      assert Lower([]) == [];
    }
  }

  /** The case of ExtOfLower where the last dot follows the last separator. */
  lemma {:induction false} ExtOfLowerDotted(p: string, s: int, d: int)
    requires s == LastIndexOf(p, Sep) == LastIndexOf(Lower(p), Sep)
    requires d == LastIndexOf(p, ExtSep) == LastIndexOf(Lower(p), ExtSep)
    requires d > s
    ensures ExtOf(Lower(p)) == Lower(ExtOf(p))
  {
    DotsBetweenLower(p, Lower(p), s + 1, d);
    LowerSlice(p, d, |p|);
  }

  /** Lowering neither creates nor removes a dot, so the scan for the
      leading-dot case gives the same answer on the lowered path. */
  lemma {:induction false} DotsBetweenLower(p: string, q: string, i: int, j: int)
    requires q == Lower(p)
    requires 0 <= i && j <= |p|
    ensures DotsBetween(q, i, j) == DotsBetween(p, i, j)
  {
    forall k | i <= k < j ensures p[k] == ExtSep <==> q[k] == ExtSep {
      LowerCharFixesNonLetter(p[k], ExtSep);
    }
    DotsBetweenSame(p, q, i, j);
  }
}
