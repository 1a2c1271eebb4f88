/** The byte-string vocabulary shared by the parser and the searcher: a C++
    `std::string` is a sequence of bytes, `std::string::find` returns the first
    occurrence of a needle, and `boost::to_lower` (in the "C" locale) folds the
    ASCII capitals. */
module Text {

  /** One byte of a `std::string`. A subset of `char` so that string literals
      can be used for the constant markers ("<title>", "..."). */
  type Byte = c: char | c as int < 256
  type Bytes = seq<Byte>

  /** Stands in for the nullable pointers and `npos` results of the source. */
  datatype Option<+T> = None | Some(value: T)

  // ---------------------------------------------------------------------------
  // Case folding
  // ---------------------------------------------------------------------------

  predicate IsUpper(c: Byte) {
    'A' <= c <= 'Z'
  }

  function LowerByte(c: Byte): (r: Byte)
    ensures !IsUpper(r)
    ensures IsUpper(c) ==> r as int == c as int + 32
    ensures !IsUpper(c) ==> r == c
  {
    if IsUpper(c) then (c as int + 32) as char else c
  }

  /** `boost::to_lower` on a byte string: ASCII capitals become small letters,
      every other byte is kept. */
  function Lower(s: Bytes): (r: Bytes)
    ensures |r| == |s|
    ensures forall i :: 0 <= i < |r| ==> !IsUpper(r[i])
    ensures forall i :: 0 <= i < |s| && !IsUpper(s[i]) ==> r[i] == s[i]
    ensures forall i :: 0 <= i < |s| && IsUpper(s[i]) ==> r[i] as int == s[i] as int + 32
  {
    seq(|s|, i requires 0 <= i < |s| => LowerByte(s[i]))
  }

  /** Folding twice is folding once. */
  lemma LowerIdempotent(s: Bytes)
    ensures Lower(Lower(s)) == Lower(s)
  {
  }

  // ---------------------------------------------------------------------------
  // Substring search
  // ---------------------------------------------------------------------------

  /** `w` occurs in `s` starting at offset `i`. */
  predicate OccursAt(s: Bytes, w: Bytes, i: nat) {
    i + |w| <= |s| && s[i..i + |w|] == w
  }

  /** One mismatching byte rules out an occurrence. */
  lemma NotAt(s: Bytes, w: Bytes, i: nat, k: nat)
    requires i <= k < i + |w| && k < |s| && s[k] != w[k - i]
    ensures !OccursAt(s, w, i)
  {
    if i + |w| <= |s| {
      assert s[i..i + |w|][k - i] == s[k];
    }
  }

  /** `i` is the first offset at which `w` occurs in `s`. */
  ghost predicate FirstAt(s: Bytes, w: Bytes, i: nat) {
    OccursAt(s, w, i) && forall j: nat :: j < i ==> !OccursAt(s, w, j)
  }

  function FindFrom(s: Bytes, w: Bytes, i: nat): (r: Option<nat>)
    decreases |s| - i
    ensures r.Some? ==> i <= r.value && OccursAt(s, w, r.value)
    ensures r.Some? ==> forall j: nat :: i <= j < r.value ==> !OccursAt(s, w, j)
    ensures r.None? ==> forall j: nat :: i <= j ==> !OccursAt(s, w, j)
  {
    if i + |w| > |s| then None
    else if s[i..i + |w|] == w then Some(i)
    else FindFrom(s, w, i + 1)
  }

  /** `s.find(w)`: the first offset of `w` in `s`, or None for `npos`.
      An empty needle is found at offset 0. */
  function Find(s: Bytes, w: Bytes): (r: Option<nat>)
    ensures r.Some? ==> FirstAt(s, w, r.value)
    ensures r.None? <==> forall j: nat :: !OccursAt(s, w, j)
  {
    FindFrom(s, w, 0)
  }

  /** Find is characterised by the first occurrence: whenever `i` is the first
      offset of `w`, Find returns exactly `i`. */
  lemma FindFirst(s: Bytes, w: Bytes, i: nat)
    requires FirstAt(s, w, i)
    ensures Find(s, w) == Some(i)
  {
  }
}
