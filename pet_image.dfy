/**
 * The two helpers of the image-upload resource: the content-type whitelist
 * and the routine that picks a file name nobody has taken yet.
 *
 * The target directory is abstracted as the set of full paths of the files
 * that already exist; `path + name` is the candidate's full path, exactly as
 * the source concatenates them.
 */
module PetImage {

  // ---------------------------------------------------------------------
  // Content types

  /** The content types accepted as images, matched exactly and case-sensitively. */
  const ImageContentTypes: set<string> :=
    {"image/gif", "image/jpeg", "image/jpg", "image/png", "image/webp", "image/svg+xml"}

  /** `_isValidImage`: a chain of six exact string comparisons. */
  function IsValidImage(contentType: string): (valid: bool)
    ensures valid <==> contentType in ImageContentTypes
    ensures valid ==> |contentType| > 6 && contentType[..6] == "image/"
  {
    contentType == "image/gif"
    || contentType == "image/jpeg"
    || contentType == "image/jpg"
    || contentType == "image/png"
    || contentType == "image/webp"
    || contentType == "image/svg+xml"
  }

  // ---------------------------------------------------------------------
  // Python string primitives

  /** `s.rfind(".")`: the index of the last dot, or -1 when there is none. */
  function RFindDot(s: string): (r: int)
    ensures -1 <= r < |s|
    ensures r >= 0 ==> s[r] == '.'
    ensures forall j :: r < j < |s| ==> s[j] != '.'
  {
    LastDotBelow(s, |s|)
  }

  /** The index of the last dot among the first `n` characters, or -1. */
  function LastDotBelow(s: string, n: nat): (r: int)
    requires n <= |s|
    ensures -1 <= r < n
    ensures r >= 0 ==> s[r] == '.'
    ensures forall j :: r < j < n ==> s[j] != '.'
  {
    if n == 0 then -1
    else if s[n - 1] == '.' then n - 1
    else LastDotBelow(s, n - 1)
  }

  /** How Python reads a slice bound `i` on a string of length `n`: negative counts from the end, and both ends clamp. */
  function PyIndex(i: int, n: nat): (k: nat)
    ensures k <= n
    ensures 0 <= i <= n ==> k == i
    ensures i < 0 && i + n >= 0 ==> k == i + n
    ensures i > n ==> k == n
    ensures i + n < 0 ==> k == 0
  {
    if i < 0 then (if i + n < 0 then 0 else i + n)
    else if i > n then n
    else i
  }

  /** `s[:i]`: the prefix of `s` whose length is the bound `i` read as Python does. */
  function SliceTo(s: string, i: int): string
  {
    s[..PyIndex(i, |s|)]
  }

  /** `s[i:]`: the suffix of `s` that starts at the bound `i` read as Python does. */
  function SliceFrom(s: string, i: int): string
  {
    s[PyIndex(i, |s|)..]
  }

  // ---------------------------------------------------------------------
  // One step of the rename loop and its iteration

  /** The loop body of `_getUniqueFileName`: `name[:index] + "1." + name[index+1:]` with `index = name.rfind(".")`. */
  function Rename(name: string): string
  {
    var index := RFindDot(name);
    SliceTo(name, index) + "1." + SliceFrom(name, index + 1)
  }

  /** The candidate after `k` steps of the loop. */
  function Renamed(name: string, k: nat): string
  {
    if k == 0 then name else Rename(Renamed(name, k - 1))
  }

  /** The part before the inserted ones: the text before the last dot, or (no dot) all but the last character. */
  function Stem(name: string): string
  {
    SliceTo(name, RFindDot(name))
  }

  /** The part after the inserted dot: the text after the last dot, or (no dot) the whole name. */
  function Ext(name: string): string
  {
    SliceFrom(name, RFindDot(name) + 1)
  }

  /** `k` copies of the character '1'. */
  function Ones(k: nat): (r: string)
    ensures |r| == k && forall i :: 0 <= i < k ==> r[i] == '1'
  {
    seq(k, _ => '1')
  }

  /** A position holding the last dot is what rfind reports. */
  lemma RFindDotAt(s: string, i: int)
    requires 0 <= i < |s| && s[i] == '.'
    requires forall j :: i < j < |s| ==> s[j] != '.'
    ensures RFindDot(s) == i
  {
  }

  /** After a name with a dot, one step inserts a single '1' right before the last dot and keeps the extension. */
  lemma RenameDotted(name: string)
    requires RFindDot(name) >= 0
    ensures var i := RFindDot(name);
      Rename(name) == name[..i] + "1." + name[i + 1..]
      && |Rename(name)| == |name| + 1
      && RFindDot(Rename(name)) == i + 1
      && Ext(Rename(name)) == Ext(name)
  {
    var i := RFindDot(name);
    var r := Rename(name);
    assert r == name[..i] + "1." + name[i + 1..];
    assert r[i + 1] == '.';
    forall j | i + 1 < j < |r| ensures r[j] != '.' {
      assert r[j] == name[j - 1];
    }
    RFindDotAt(r, i + 1);
    assert r[i + 2..] == name[i + 1..];
  }

  /** A name without a dot becomes `name[:-1] + "1." + name`: "abc" gives "ab1.abc" and "" gives "1.". */
  lemma RenameUndotted(name: string)
    requires RFindDot(name) == -1
    ensures var stem := if |name| == 0 then "" else name[..|name| - 1];
      Rename(name) == stem + "1." + name
      && |Rename(name)| == (if |name| == 0 then 2 else 2 * |name| + 1)
      && RFindDot(Rename(name)) == |stem| + 1
      && Ext(Rename(name)) == name
  {
    var stem := if |name| == 0 then "" else name[..|name| - 1];
    var r := Rename(name);
    assert r == stem + "1." + name;
    forall j | |stem| + 1 < j < |r| ensures r[j] != '.' {
      assert r[j] == name[j - |stem| - 2];
    }
    RFindDotAt(r, |stem| + 1);
    assert r[|stem| + 2..] == name;
  }

  /** The no-dot case on two inputs: "abc" becomes "ab1.abc" and the empty name becomes "1.". */
  lemma RenameUndottedExamples()
    ensures Rename("abc") == "ab1.abc"
    ensures Rename("") == "1."
  {
  }

  /** The dotted case on one input: "cat.png" becomes "cat1.png". */
  lemma RenameDottedExample()
    ensures Rename("cat.png") == "cat1.png"
  {
    RFindDotAt("cat.png", 3);
    assert SliceTo("cat.png", 3) == "cat";
    assert SliceFrom("cat.png", 4) == "png";
  }

  /** Every step lengthens the name; after any step the name has a dot. */
  lemma RenameGrows(name: string)
    ensures |Rename(name)| > |name|
    ensures RFindDot(Rename(name)) >= 0
  {
    if RFindDot(name) >= 0 { RenameDotted(name); } else { RenameUndotted(name); }
  }

  /** The extension never contains a dot. */
  lemma ExtHasNoDot(name: string)
    ensures forall j :: 0 <= j < |Ext(name)| ==> Ext(name)[j] != '.'
  {
    var d := RFindDot(name);
    forall j | 0 <= j < |Ext(name)| ensures Ext(name)[j] != '.' {
      assert Ext(name)[j] == name[d + 1 + j];
    }
  }

  /** On a name whose last dot is followed by `b`, one step puts a '1' right before that dot. */
  lemma RenameBeforeDot(a: string, b: string)
    requires forall j :: 0 <= j < |b| ==> b[j] != '.'
    ensures RFindDot(a + "." + b) == |a|
    ensures Rename(a + "." + b) == a + "1." + b
  {
    LastDotBefore(a, b);
    var s := a + "." + b;
    assert SliceTo(s, |a|) == a;
    assert SliceFrom(s, |a| + 1) == b;
  }

  /** The dot between `a` and a dot-free `b` is the last one. */
  lemma LastDotBefore(a: string, b: string)
    requires forall j :: 0 <= j < |b| ==> b[j] != '.'
    ensures RFindDot(a + "." + b) == |a|
  {
    var s := a + "." + b;
    forall j | |a| < j < |s| ensures s[j] != '.' {
      assert s[j] == b[j - |a| - 1];
    }
    RFindDotAt(s, |a|);
  }

  /**
   * Closed form of the loop: after `k` steps the candidate is the stem,
   * `k` ones, a dot and the unchanged extension. For a dotted name this
   * holds from `k == 0`.
   */
  lemma {:induction false} RenamedForm(name: string, k: nat)
    requires k >= 1 || RFindDot(name) >= 0
    ensures Renamed(name, k) == Stem(name) + Ones(k) + "." + Ext(name)
  {
    if k == 0 {
      DottedSplits(name);
    } else if k == 1 && RFindDot(name) == -1 {
      assert Ones(1) == "1";
      assert Renamed(name, 1) == Rename(name);
    } else {
      RenamedForm(name, k - 1);
      RenamedStep(name, k);
    }
  }

  /** The inductive step of the closed form. */
  lemma RenamedStep(name: string, k: nat)
    requires k >= 1
    requires Renamed(name, k - 1) == Stem(name) + Ones(k - 1) + "." + Ext(name)
    ensures Renamed(name, k) == Stem(name) + Ones(k) + "." + Ext(name)
  {
    var stem, ext := Stem(name), Ext(name);
    ExtHasNoDot(name);
    RenameBeforeDot(stem + Ones(k - 1), ext);
    OneMore(stem, k - 1, ext);
  }

  /** Inserting one more '1' after `k` of them. */
  lemma OneMore(stem: string, k: nat, ext: string)
    ensures stem + Ones(k) + "1." + ext == stem + Ones(k + 1) + "." + ext
  {
    assert Ones(k) + "1" == Ones(k + 1);
    assert stem + Ones(k) + "1." == stem + Ones(k + 1) + ".";
  }

  /** A dotted name is its stem, its last dot and its extension. */
  lemma DottedSplits(name: string)
    requires RFindDot(name) >= 0
    ensures name == Stem(name) + Ones(0) + "." + Ext(name)
  {
    var d := RFindDot(name);
    assert name == name[..d] + "." + name[d + 1..];
    assert Ones(0) == "";
  }

  /** Later candidates are strictly longer, so no candidate is ever tried twice. */
  lemma {:induction false} RenamedLonger(name: string, j: nat, k: nat)
    requires j < k
    ensures |Renamed(name, j)| < |Renamed(name, k)|
  {
    RenameGrows(Renamed(name, k - 1));
    if j < k - 1 {
      RenamedLonger(name, j, k - 1);
    }
  }

  /** A candidate is empty only when no step was taken on an empty name: every step leaves a dot. */
  lemma RenamedEmpty(name: string, k: nat)
    ensures Renamed(name, k) == "" <==> name == "" && k == 0
  {
    if k > 0 {
      RenamedLonger(name, 0, k);
    }
  }

  // ---------------------------------------------------------------------
  // The loop

  /** Full paths in `existing` that are at least as long as `path + name`: the loop's termination measure. */
  function LongEnough(existing: set<string>, path: string, name: string): set<string>
  {
    set f | f in existing && |f| >= |path| + |name|
  }

  /** A taken candidate drops out of the measure after one rename step. */
  lemma LongEnoughShrinks(existing: set<string>, path: string, name: string)
    requires path + name in existing
    ensures LongEnough(existing, path, Rename(name)) < LongEnough(existing, path, name)
  {
    var next := Rename(name);
    RenameGrows(name);
    assert path + name in LongEnough(existing, path, name);
    assert path + name !in LongEnough(existing, path, next);
  }

  /**
   * `_getUniqueFileName`: while `path + name` is an existing file, apply one
   * rename step. `k` is the number of steps taken (ghost, for the contract).
   */
  method GetUniqueFileName(existing: set<string>, path: string, fileName: string)
    returns (name: string, ghost k: nat)
    ensures path + name !in existing
    ensures path + fileName !in existing ==> name == fileName
    ensures name == Renamed(fileName, k)
    ensures forall j :: 0 <= j < k ==> path + Renamed(fileName, j) in existing
    ensures k >= 1 || RFindDot(fileName) >= 0 ==>
      name == Stem(fileName) + Ones(k) + "." + Ext(fileName)
  {
    name, k := fileName, 0;
    while path + name in existing
      invariant name == Renamed(fileName, k)
      invariant forall j :: 0 <= j < k ==> path + Renamed(fileName, j) in existing
      decreases LongEnough(existing, path, name)
    {
      LongEnoughShrinks(existing, path, name);
      name, k := Rename(name), k + 1;
    }
    if k >= 1 || RFindDot(fileName) >= 0 {
      RenamedForm(fileName, k);
    }
  }
}
