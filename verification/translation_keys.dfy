/**
 * Translation keys of the form `type.modid:unloc`, followed by `.param` for
 * every extra parameter, as the mod builds them for its localisation lookups.
 * The mod id is a constant of a class outside this model, so it is passed in
 * as `modId`.
 */
module TranslationKeys {
  import opened SeqLemmas

  /** The part of every key that does not depend on the parameters. */
  function KeyPrefix(unloc: string, keyType: string, modId: string): string
  {
    keyType + "." + modId + ":" + unloc
  }

  /** `.p` for each parameter `p`, in order. */
  function ParamSuffix(params: seq<string>): string
  {
    if params == [] then "" else "." + params[0] + ParamSuffix(params[1..])
  }

  /** The sum of `|p| + 1` over the parameters. */
  function ParamsLength(params: seq<string>): nat
  {
    if params == [] then 0 else |params[0]| + 1 + ParamsLength(params[1..])
  }

  /** The key for `unloc` of kind `keyType`, extended by the parameters. */
  function TranslationKey(unloc: string, keyType: string, modId: string, params: seq<string>): (key: string)
    ensures |KeyPrefix(unloc, keyType, modId)| <= |key|
    ensures key[..|KeyPrefix(unloc, keyType, modId)|] == KeyPrefix(unloc, keyType, modId)
    ensures params == [] ==> key == keyType + "." + modId + ":" + unloc
  {
    KeyPrefix(unloc, keyType, modId) + ParamSuffix(params)
  }

  /** Adding a parameter at the end appends exactly `.` and that parameter. */
  lemma {:induction false} ParamSuffixSnoc(params: seq<string>, p: string)
    ensures ParamSuffix(params + [p]) == ParamSuffix(params) + "." + p
  {
    if params == [] {
      assert params + [p] == [p];
    } else {
      assert (params + [p])[0] == params[0];
      assert (params + [p])[1..] == params[1..] + [p];
      ParamSuffixSnoc(params[1..], p);
      calc {
        ParamSuffix(params + [p]);
        "." + params[0] + ParamSuffix(params[1..] + [p]);
        "." + params[0] + (ParamSuffix(params[1..]) + "." + p);
        { AppendAssoc("." + params[0], ParamSuffix(params[1..]) + ".", p);
          AppendAssoc("." + params[0], ParamSuffix(params[1..]), "."); }
        ParamSuffix(params) + "." + p;
      }
    }
  }

  /** One more parameter extends the previous key by exactly `.` and that parameter. */
  lemma AppendParam(unloc: string, keyType: string, modId: string, params: seq<string>, p: string)
    ensures TranslationKey(unloc, keyType, modId, params + [p]) == TranslationKey(unloc, keyType, modId, params) + "." + p
  {
    var pre := KeyPrefix(unloc, keyType, modId);
    ParamSuffixSnoc(params, p);
    AppendAssoc(pre, ParamSuffix(params) + ".", p);
    AppendAssoc(pre, ParamSuffix(params), ".");
  }

  lemma {:induction false} ParamSuffixLength(params: seq<string>)
    ensures |ParamSuffix(params)| == ParamsLength(params)
  {
    if params != [] {
      ParamSuffixLength(params[1..]);
    }
  }

  /** The key is as long as its prefix (type, mod id, unloc and two separators) plus one dot and the text of each parameter. */
  lemma {:induction false} KeyLength(unloc: string, keyType: string, modId: string, params: seq<string>)
    ensures |TranslationKey(unloc, keyType, modId, params)| == |keyType| + |modId| + |unloc| + 2 + ParamsLength(params)
  {
    ParamSuffixLength(params);
  }

  /**
   * Builds the key the way the mod does: start from the prefix and append
   * `.` and each parameter in turn.
   */
  method GetTranslationKey(unloc: string, keyType: string, modId: string, params: seq<string>) returns (key: string)
    ensures key == KeyPrefix(unloc, keyType, modId) + ParamSuffix(params)
    ensures key == TranslationKey(unloc, keyType, modId, params)
    ensures |key| == |keyType| + |modId| + |unloc| + 2 + ParamsLength(params)
  {
    var pre := KeyPrefix(unloc, keyType, modId);
    key := pre;
    assert key == pre + ParamSuffix(params[..0]);
    for i := 0 to |params|
      invariant key == pre + ParamSuffix(params[..i])
    {
      assert params[..i + 1] == params[..i] + [params[i]];
      ParamSuffixSnoc(params[..i], params[i]);
      AppendAssoc(pre, ParamSuffix(params[..i]) + ".", params[i]);
      AppendAssoc(pre, ParamSuffix(params[..i]), ".");
      key := key + "." + params[i];
    }
    assert params[..|params|] == params;
    KeyLength(unloc, keyType, modId, params);
  }

  // -----------------------------------------------------------------------
  // Reading the parameters back

  predicate DotFree(params: seq<string>)
  {
    forall j :: 0 <= j < |params| ==> '.' !in params[j]
  }

  /** The position of the first dot. */
  function IndexOfDot(s: string): (i: nat)
    requires '.' in s
    ensures i < |s| && s[i] == '.' && '.' !in s[..i]
  {
    if s[0] == '.' then 0
    else
      var i := 1 + IndexOfDot(s[1..]);
      assert s[..i] == [s[0]] + s[1..][..i - 1];
      i
  }

  /** The dot-separated pieces of `s`. */
  function SplitOnDots(s: string): (parts: seq<string>)
    ensures |parts| >= 1
    decreases |s|
  {
    if '.' !in s then [s]
    else
      var i := IndexOfDot(s);
      [s[..i]] + SplitOnDots(s[i + 1..])
  }

  /** The parameters encoded in the part of a key that follows its prefix. */
  function ParseParams(suffix: string): seq<string>
  {
    if suffix == [] then [] else SplitOnDots(suffix[1..])
  }

  lemma {:induction false} IndexOfDotAfter(p: string, t: string)
    requires '.' !in p
    ensures '.' in p + ("." + t) && IndexOfDot(p + ("." + t)) == |p|
  {
    var s := p + ("." + t);
    assert s[|p|] == '.';
    if p != [] {
      assert s[1..] == p[1..] + ("." + t);
      IndexOfDotAfter(p[1..], t);
    }
  }

  lemma {:induction false} SplitParamSuffix(p: string, rest: seq<string>)
    requires '.' !in p
    requires DotFree(rest)
    ensures SplitOnDots(p + ParamSuffix(rest)) == [p] + rest
    decreases |rest|
  {
    if rest == [] {
      assert p + ParamSuffix(rest) == p;
    } else {
      var t := rest[0] + ParamSuffix(rest[1..]);
      var s := p + ParamSuffix(rest);
      AppendAssoc(".", rest[0], ParamSuffix(rest[1..]));
      assert s == p + ("." + t);
      IndexOfDotAfter(p, t);
      assert s[..|p|] == p;
      assert s[|p| + 1..] == t;
      SplitParamSuffix(rest[0], rest[1..]);
      assert [rest[0]] + rest[1..] == rest;
    }
  }

  /** Parameters without dots are recovered exactly from the text they add to a key. */
  lemma ParamsRoundTrip(params: seq<string>)
    requires DotFree(params)
    ensures ParseParams(ParamSuffix(params)) == params
  {
    if params != [] {
      var s := ParamSuffix(params);
      AppendAssoc(".", params[0], ParamSuffix(params[1..]));
      assert s[1..] == params[0] + ParamSuffix(params[1..]);
      SplitParamSuffix(params[0], params[1..]);
      assert [params[0]] + params[1..] == params;
    }
  }

  /**
   * Two keys with the same prefix and dot-free parameters are equal only when
   * the parameters are: the parameters can be read back from the key.
   */
  lemma KeyDeterminesParams(unloc: string, keyType: string, modId: string, params: seq<string>)
    requires DotFree(params)
    ensures ParseParams(TranslationKey(unloc, keyType, modId, params)[|KeyPrefix(unloc, keyType, modId)|..]) == params
  {
    var pre := KeyPrefix(unloc, keyType, modId);
    assert TranslationKey(unloc, keyType, modId, params)[|pre|..] == ParamSuffix(params);
    ParamsRoundTrip(params);
  }

  /** A parameter that itself contains a dot is indistinguishable from two parameters. */
  lemma DottedParamsCollide()
    ensures ParamSuffix(["a.b"]) == ParamSuffix(["a", "b"])
  {
  }
}
