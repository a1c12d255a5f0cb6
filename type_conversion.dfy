/**
 * `DefaultTypeConversionService`: an ordered registry of type converters
 * with a memo cache from source type to the converter chosen for it. A
 * Java `Type` is an abstract identifier; which source types a converter
 * accepts (`TypeConverterProxy.matches`, a reflective assignability test)
 * is given as a set, and what a delegate's `convert` does is an argument.
 */
module TypeConversion {
  import opened Wrappers

  type SourceType = int
  type TargetType = int

  /**
   * A `TypeConverter` wrapped in its proxy: `delegate` identifies the
   * wrapped object (proxies are equal exactly when their delegates are),
   * `resolvable` whether its source and target type parameters resolve, and
   * `sources` the types it matches.
   */
  datatype Converter = Converter(delegate: int, resolvable: bool, sources: set<SourceType>)

  /** `TypeConverterProxy.matches`. */
  predicate Matches(c: Converter, t: SourceType)
  {
    t in c.sources
  }

  /** `TypeConverterProxy.equals`: equal delegates. */
  predicate ProxyEquals(a: Converter, b: Converter)
  {
    a.delegate == b.delegate
  }

  /** The first converter in registration order that matches `t`. */
  function FirstMatch(cs: seq<Converter>, t: SourceType): (r: Option<Converter>)
    ensures r.None? <==> forall i :: 0 <= i < |cs| ==> !Matches(cs[i], t)
    ensures r.Some? ==> exists i :: 0 <= i < |cs| && cs[i] == r.value && Matches(cs[i], t)
                                    && forall j :: 0 <= j < i ==> !Matches(cs[j], t)
  {
    if |cs| == 0 then None
    else if Matches(cs[0], t) then Some(cs[0])
    else
      var rest := FirstMatch(cs[1..], t);
      assert forall i :: 1 <= i < |cs| ==> cs[i] == cs[1..][i - 1];
      rest
  }

  /** Registering a converter at the end never changes a type's existing first match. */
  lemma {:induction false} FirstMatchAppend(cs: seq<Converter>, c: Converter, t: SourceType)
    ensures FirstMatch(cs + [c], t) ==
      if FirstMatch(cs, t).Some? then FirstMatch(cs, t) else if Matches(c, t) then Some(c) else None
  {
    if |cs| > 0 {
      assert (cs + [c])[1..] == cs[1..] + [c];
      FirstMatchAppend(cs[1..], c, t);
    }
  }

  /** The delegate's answer to `convert`: a target type, null, or a runtime exception. */
  datatype DelegateResult = Converted(target: TargetType) | ConvertedToNull | RuntimeFailure

  class DefaultTypeConversionService {
    var converters: seq<Converter>
    var cache: map<SourceType, Converter>

    /** Every cached converter is the current first match, and no delegate is registered twice. */
    ghost predicate Valid()
      reads this
    {
      (forall t :: t in cache ==> FirstMatch(converters, t) == Some(cache[t]))
      && (forall i, j :: 0 <= i < j < |converters| ==> !ProxyEquals(converters[i], converters[j]))
    }

    constructor ()
      ensures Valid() && converters == [] && cache == map[]
    {
      converters := [];
      cache := map[];
    }

    /** `findConverter`: the registration-order scan. */
    method FindConverter(t: SourceType) returns (r: Option<Converter>)
      ensures r == FirstMatch(converters, t)
    {
      var i := 0;
      while i < |converters|
        invariant 0 <= i <= |converters|
        invariant forall j :: 0 <= j < i ==> !Matches(converters[j], t)
      {
        if Matches(converters[i], t) {
          FirstMatchIsEarliest(converters, t, i);
          return Some(converters[i]);
        }
        i := i + 1;
      }
      return None;
    }

    /** `getConverter`: the cached entry, else the scan's answer, cached only when it is not null. */
    method GetConverter(t: SourceType) returns (r: Option<Converter>)
      requires Valid()
      modifies this
      ensures Valid()
      ensures r == FirstMatch(converters, t)
      ensures converters == old(converters)
      ensures t in old(cache) ==> cache == old(cache)
      ensures t !in old(cache) && r.Some? ==> cache == old(cache)[t := r.value]
      ensures t !in old(cache) && r.None? ==> cache == old(cache)
    {
      if t in cache {
        return Some(cache[t]);
      }
      r := FindConverter(t);
      if r.Some? {
        cache := cache[t := r.value];
      }
    }

    /** `canConvert`: false for null, else whether some registered converter matches. */
    method CanConvert(source: Option<SourceType>) returns (r: bool)
      requires Valid()
      modifies this
      ensures Valid() && converters == old(converters)
      ensures r <==> source.Some? && exists i :: 0 <= i < |converters| && Matches(converters[i], source.value)
    {
      if source.None? {
        return false;
      }
      var converter := GetConverter(source.value);
      r := converter.Some?;
    }

    /**
     * `convert`: a null source is rejected, an unmatched one has no
     * converter, and a delegate that throws or answers null is a failed
     * conversion; `answer` is what the chosen delegate does.
     */
    method Convert(source: Option<SourceType>, answer: DelegateResult) returns (r: Outcome<TargetType>)
      requires Valid()
      modifies this
      ensures Valid() && converters == old(converters)
      ensures source.None? ==> r == Threw(IllegalArgument)
      ensures source.Some? && FirstMatch(converters, source.value).None? ==> r == Threw(TypeConverterNotFound)
      ensures source.Some? && FirstMatch(converters, source.value).Some? ==>
        r == (if answer.Converted? then Returned(answer.target) else Threw(TypeConversionFailed))
    {
      if source.None? {
        return Threw(IllegalArgument);
      }
      var converter := GetConverter(source.value);
      if converter.None? {
        return Threw(TypeConverterNotFound);
      }
      match answer
      case RuntimeFailure => return Threw(TypeConversionFailed);
      case ConvertedToNull => return Threw(TypeConversionFailed);
      case Converted(target) => return Returned(target);
    }

    /** `converters.contains(proxy)`: a registered proxy with the same delegate. */
    method Registered(c: Converter) returns (r: bool)
      ensures r <==> exists i :: 0 <= i < |converters| && ProxyEquals(converters[i], c)
    {
      var i := 0;
      while i < |converters|
        invariant 0 <= i <= |converters|
        invariant forall j :: 0 <= j < i ==> !ProxyEquals(converters[j], c)
      {
        if ProxyEquals(converters[i], c) {
          return true;
        }
        i := i + 1;
      }
      return false;
    }

    /**
     * `addConverter`: null and already-registered converters are ignored; a
     * converter whose type parameters do not resolve is rejected by the
     * proxy's constructor; otherwise it is appended and the cache cleared.
     */
    method AddConverter(converter: Option<Converter>) returns (error: Option<Exception>)
      requires Valid()
      modifies this
      ensures Valid()
      ensures converter.Some? && !converter.value.resolvable ==> error == Some(IllegalArgument)
      ensures error.Some? ==> error == Some(IllegalArgument)
      ensures converter.None? || !converter.value.resolvable
              || (exists i :: 0 <= i < |old(converters)| && ProxyEquals(old(converters)[i], converter.value))
              ==> converters == old(converters) && cache == old(cache)
      ensures converter.Some? && converter.value.resolvable
              && (forall i :: 0 <= i < |old(converters)| ==> !ProxyEquals(old(converters)[i], converter.value))
              ==> error.None? && converters == old(converters) + [converter.value] && cache == map[]
    {
      error := None;
      if converter.None? {
        return;
      }
      var proxy := converter.value;
      if !proxy.resolvable {
        return Some(IllegalArgument);
      }
      var present := Registered(proxy);
      if present {
        return;
      }
      converters := converters + [proxy];
      cache := map[];
    }
  }

  /** A matching converter at index `i` with no earlier match is the first match. */
  lemma FirstMatchIsEarliest(cs: seq<Converter>, t: SourceType, i: int)
    requires 0 <= i < |cs| && Matches(cs[i], t)
    requires forall j :: 0 <= j < i ==> !Matches(cs[j], t)
    ensures FirstMatch(cs, t) == Some(cs[i])
  {
    var r := FirstMatch(cs, t);
    var k :| 0 <= k < |cs| && cs[k] == r.value && Matches(cs[k], t) && forall j :: 0 <= j < k ==> !Matches(cs[j], t);
    assert k == i;
  }

  /** Whatever the cache holds, a lookup answers as a fresh scan of the registry would. */
  lemma CacheAgreesWithScan(s: DefaultTypeConversionService, t: SourceType)
    requires s.Valid() && t in s.cache
    ensures Matches(s.cache[t], t) && s.cache[t] in s.converters
    ensures forall i :: 0 <= i < |s.converters| && s.converters[i] == s.cache[t] ==>
              forall j :: 0 <= j < i ==> !Matches(s.converters[j], t)
  {
    var c := s.cache[t];
    var k :| 0 <= k < |s.converters| && s.converters[k] == c && Matches(s.converters[k], t)
             && forall j :: 0 <= j < k ==> !Matches(s.converters[j], t);
    forall i | 0 <= i < |s.converters| && s.converters[i] == c
      ensures forall j :: 0 <= j < i ==> !Matches(s.converters[j], t)
    {
      assert i == k;
    }
  }
}
