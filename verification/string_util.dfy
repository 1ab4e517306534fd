/**
 The string helpers the plugin defines for itself (`starts_with`, `ends_with`)
 and the two `std::basic_string` members it relies on (`compare` and `find`).
 Strings are `seq<char>`; `size_type` is a 64-bit unsigned integer.
 */
module StringUtil {
  import opened Wrappers

  /** Number of distinct values of the 64-bit `size_type`. */
  const SizeModulus: nat := 0x1_0000_0000_0000_0000

  /** A string whose length is representable as a `size_type`. */
  predicate ValidSize(s: string) {
    |s| < SizeModulus
  }

  /** The exception `std::basic_string` raises for a start position past the end. */
  datatype StringError = OutOfRange

  /** Subtraction of two `size_type` values, which wraps around modulo 2^64. */
  function SizeSub(a: nat, b: nat): (r: nat)
    requires a < SizeModulus && b < SizeModulus
    ensures r < SizeModulus
    ensures b <= a ==> r == a - b
    ensures a < b ==> r == SizeModulus - (b - a) && r > a
  {
    (a - b) % SizeModulus
  }

  /**
   `big.compare(pos, len, small) == 0`: the piece of `big` that starts at `pos`
   and holds at most `len` characters is equal to `small`. A start past the end
   of `big` throws `out_of_range` instead of comparing.
   */
  function CompareEqual(big: string, pos: nat, len: nat, small: string): (r: Result<bool, StringError>)
    ensures r.Failure? <==> pos > |big|
    ensures r.Success? && pos + len <= |big| ==> (r.value <==> |small| == len && big[pos..pos + len] == small)
    ensures r.Success? && |big| < pos + len ==> (r.value <==> |small| == |big| - pos && big[pos..] == small)
  {
    if pos > |big| then Failure(OutOfRange)
    else
      var available := |big| - pos;
      var count := if len < available then len else available;
      Success(big[pos..pos + count] == small)
  }

  /**
   `std::starts_with(big, small)`. `aliased` stands for the identity test
   `&big == &small`, which can only hold when the two strings are one object.
   */
  function StartsWith(big: string, small: string, aliased: bool): (r: bool)
    requires aliased ==> big == small
    ensures r <==> |small| <= |big| && big[..|small|] == small
  {
    if aliased then true
    else
      var valid := |big| >= |small|;
      var matches := CompareEqual(big, 0, |small|, small);
      valid && matches == Success(true)
  }

  /** Prefix in the sense of concatenation: `big` is `small` followed by something. */
  lemma StartsWithIffConcat(big: string, small: string)
    ensures StartsWith(big, small, false) <==> exists rest :: big == small + rest
  {
    if StartsWith(big, small, false) {
      assert big == small + big[|small|..];
    }
    if exists rest :: big == small + rest {
      var rest :| big == small + rest;
      assert big[..|small|] == small;
    }
  }

  /** The empty string is a prefix of every string, and every string is a prefix of itself. */
  lemma StartsWithEmptyAndSelf(s: string)
    ensures StartsWith(s, "", false)
    ensures StartsWith(s, s, false)
  {
  }

  /** The identity shortcut returns what the comparison would have returned. */
  lemma StartsWithAliasConsistent(s: string)
    ensures StartsWith(s, s, true) == StartsWith(s, s, false)
  {
  }

  /**
   `std::ends_with(big, small)` as written: the offset `big_size - small_size`
   is computed in `size_type` and wraps around when `small` is longer, so
   `compare` is called with a position past the end and throws.
   */
  function EndsWithAsWritten(big: string, small: string, aliased: bool): (r: Result<bool, StringError>)
    requires ValidSize(big) && ValidSize(small)
    requires aliased ==> big == small
    ensures r.Failure? <==> |big| < |small|
    ensures r.Success? ==> (r.value <==> big[|big| - |small|..] == small)
  {
    if aliased then Success(true)
    else
      var valid := |big| >= |small|;
      var offset := SizeSub(|big|, |small|);
      match CompareEqual(big, offset, |small|, small)
      case Failure(e) => Failure(e)
      case Success(matches) => Success(valid && matches)
  }

  /** A suffix one character longer than the whole string makes the as-written helper throw. */
  lemma EndsWithAsWrittenThrows()
    ensures EndsWithAsWritten("a", "ab", false) == Failure(OutOfRange)
    ensures !EndsWith("a", "ab", false)
  {
  }

  /**
   `ends_with` as its `valid_` test evidently intends: a suffix longer than the
   string is simply not a suffix. The size test guards the comparison.
   */
  function EndsWith(big: string, small: string, aliased: bool): (r: bool)
    requires aliased ==> big == small
    ensures r <==> |small| <= |big| && big[|big| - |small|..] == small
  {
    if aliased then true
    else |big| >= |small| && CompareEqual(big, |big| - |small|, |small|, small) == Success(true)
  }

  /** Wherever the as-written helper returns normally, it returns what the corrected one does. */
  lemma EndsWithAgreesWhereDefined(big: string, small: string)
    requires ValidSize(big) && ValidSize(small)
    ensures EndsWithAsWritten(big, small, false).Success? <==> |small| <= |big|
    ensures EndsWithAsWritten(big, small, false).Success? ==>
              EndsWithAsWritten(big, small, false).value == EndsWith(big, small, false)
  {
  }

  /** Suffix in the sense of concatenation: `big` is something followed by `small`. */
  lemma EndsWithIffConcat(big: string, small: string)
    ensures EndsWith(big, small, false) <==> exists rest :: big == rest + small
  {
    if EndsWith(big, small, false) {
      assert big == big[..|big| - |small|] + small;
    }
    if exists rest :: big == rest + small {
      var rest :| big == rest + small;
      assert big[|big| - |small|..] == small;
    }
  }

  /** `needle` occurs in `hay` at index `i`. */
  predicate OccursAt(hay: string, needle: string, i: nat) {
    i + |needle| <= |hay| && hay[i..i + |needle|] == needle
  }

  /**
   `hay.find(needle, start)`: the first index at or after `start` where
   `needle` occurs; `None` is `npos`.
   */
  function FindFrom(hay: string, needle: string, start: nat): (r: Option<nat>)
    decreases |hay| - start
    ensures r.Some? ==> start <= r.value && OccursAt(hay, needle, r.value)
    ensures r.Some? ==> forall j: nat :: start <= j < r.value ==> !OccursAt(hay, needle, j)
    ensures r.None? ==> forall j: nat :: start <= j ==> !OccursAt(hay, needle, j)
  {
    if start + |needle| > |hay| then None
    else if hay[start..start + |needle|] == needle then Some(start)
    else FindFrom(hay, needle, start + 1)
  }

  /** `hay.find(needle) != npos`. */
  predicate Contains(hay: string, needle: string) {
    FindFrom(hay, needle, 0).Some?
  }

  /** `find` succeeds exactly when `needle` is an infix of `hay`. */
  lemma ContainsIffInfix(hay: string, needle: string)
    ensures Contains(hay, needle) <==> exists pre, post :: hay == pre + needle + post
  {
    var r := FindFrom(hay, needle, 0);
    if r.Some? {
      var i := r.value;
      assert hay == hay[..i] + needle + hay[i + |needle|..];
    }
    if exists pre, post :: hay == pre + needle + post {
      var pre, post :| hay == pre + needle + post;
      assert hay[|pre|..|pre| + |needle|] == needle;
      assert OccursAt(hay, needle, |pre|);
    }
  }

  /** The empty needle is found in every string. */
  lemma ContainsEmpty(hay: string)
    ensures Contains(hay, "")
  {
    assert OccursAt(hay, "", 0);
  }
}
