/**
 * Two helpers of the emulator's configuration access (`config_utils.cpp`):
 * the dotted form of a key path used in error messages, and the lookup of
 * an unsigned 64-bit option with a fallback. The configuration lookup
 * itself (`sail_config_get`) is not part of this model: its answer, the
 * JSON value found or nothing, is a parameter.
 */
module ConfigUtils {
  import opened Wrappers
  import opened Separated
  import opened JsonMerge

  const U64: nat := 0x1_0000_0000_0000_0000

  /**
   * `keypath_to_str`: every part followed by a dot, and the last dot
   * dropped again; an empty path gives the empty string.
   */
  method KeypathToStr(keypath: seq<string>) returns (s: string)
    ensures s == Join(keypath, '.')
  {
    s := "";
    if keypath == [] {
      return;
    }
    var i := 0;
    while i < |keypath|
      invariant 0 <= i <= |keypath|
      invariant i == 0 ==> s == ""
      invariant i > 0 ==> s == Join(keypath[..i], '.') + "."
    {
      JoinSnoc(keypath, i);
      s := s + keypath[i];
      s := s + ".";
      i := i + 1;
    }
    assert keypath[..|keypath|] == keypath;
    s := s[..|s| - 1];
  }

  /** One more part of the path, after a dot unless it is the first. */
  lemma JoinSnoc(keypath: seq<string>, i: nat)
    requires i < |keypath|
    ensures i == 0 ==> Join(keypath[..i + 1], '.') == keypath[0]
    ensures i > 0 ==> Join(keypath[..i + 1], '.') == Join(keypath[..i], '.') + "." + keypath[i]
  {
    assert keypath[..i + 1][..i] == keypath[..i];
  }

  /** The dotted form can be cut back into the path when no part holds a dot. */
  lemma KeypathRoundTrip(keypath: seq<string>)
    requires |keypath| >= 1 && forall i :: 0 <= i < |keypath| ==> NoSep(keypath[i], '.')
    ensures Split(Join(keypath, '.'), '.') == keypath
  {
    SplitJoin(keypath, '.');
  }

  /** The dotted form is empty only for the empty path and for a path of one empty part. */
  lemma KeypathEmpty(keypath: seq<string>)
    ensures Join(keypath, '.') == "" <==> keypath == [] || keypath == [""]
  {
    if |keypath| == 1 {
      assert keypath == [keypath[0]];
    }
  }

  /** `mpz_sgn(n) >= 0 && mpz_fits_ulong_p(n)`, with a 64-bit `unsigned long`. */
  predicate FitsU64(n: int)
  {
    0 <= n < U64
  }

  /**
   * `config_get_u64_default`: the option's value when it is present, an
   * integer, not negative and below 2^64; `def` in every other case.
   */
  function ConfigGetU64Default(found: Option<Json>, def: nat): (r: nat)
    requires def < U64
    ensures r < U64
    ensures found.Some? && found.value.Num? && FitsU64(found.value.n) ==> r == found.value.n
    ensures found.None? || !found.value.Num? || !FitsU64(found.value.n) ==> r == def
  {
    if found.None? || !found.value.Num? then def
    else
      var n := found.value.n;
      if n >= 0 && n < U64 then n else def
  }

  /**
   * The fallback matters exactly when the option cannot be used: two
   * lookups with different defaults agree if and only if the option holds
   * a usable value.
   */
  lemma DefaultOnlyWhenUnusable(found: Option<Json>, d1: nat, d2: nat)
    requires d1 < U64 && d2 < U64 && d1 != d2
    ensures ConfigGetU64Default(found, d1) == ConfigGetU64Default(found, d2) <==>
            found.Some? && found.value.Num? && FitsU64(found.value.n)
  {
  }
}
