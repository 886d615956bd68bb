/**
 * Model of `flatten`, the whole logic of the `with_os_specific` lookup plugin.
 *
 * Given the facts gathered about a host and a list of lookup terms, `flatten`
 * first derives the host's candidate keys, most specific first
 * (`<distribution>-<version>`, `<distribution>-<major version>`,
 * `<distribution>-<release>`, `<distribution>`, `<os family>`), and then maps
 * every term to at most one output value: a string passes through, a
 * dictionary gives the value at its first candidate key, or else its
 * "default" entry, and anything else gives nothing.
 *
 * The specification is given by functions (CandidateKeys, FirstMatch, Resolve,
 * ResolveAll); the source's step-by-step code is modelled by the methods
 * BuildKeys and Flatten, which are proved to compute those functions.
 */
module OsSpecific {

  datatype Option<T> = None | Some(value: T)

  /**
   * The five host facts `flatten` reads. A fact that Python treats as falsy
   * (None or the empty string) is the empty string here.
   */
  datatype Facts = Facts(
    distribution: string,
    distributionVersion: string,
    distributionMajorVersion: string,
    distributionRelease: string,
    osFamily: string)

  /**
   * A Python value as far as `flatten` distinguishes them: a string, a
   * dictionary keyed by strings, or any other object (a number, a list, None,
   * ...), carried opaquely as an `O`. Terms and dictionary values are both
   * values, so a dictionary's entry can itself be a string, a dictionary or
   * anything else, and it is copied to the output as it is.
   */
  datatype Value<O> = Str(s: string) | Dict(entries: map<string, Value<O>>) | Other(obj: O)

  /** The reserved dictionary key used when no candidate key matches. */
  const DefaultKey: string := "default"

  // ---------------------------------------------------------------------------
  // Candidate keys
  // ---------------------------------------------------------------------------

  /** `dist + "-" + s` for every non-empty suffix `s`, in the order given. */
  function DashedKeys(dist: string, suffixes: seq<string>): (keys: seq<string>)
    ensures |keys| <= |suffixes|
  {
    if suffixes == [] then []
    else (if suffixes[0] == "" then [] else [dist + "-" + suffixes[0]]) + DashedKeys(dist, suffixes[1..])
  }

  /** The three version-like facts, in the order their keys are tried. */
  function VersionFacts(f: Facts): seq<string>
  {
    [f.distributionVersion, f.distributionMajorVersion, f.distributionRelease]
  }

  /**
   * The candidate keys of a host, most specific first: the distribution's
   * dashed keys and the bare distribution (only when the distribution is
   * known), then the OS family (only when it is known).
   */
  function CandidateKeys(f: Facts): (keys: seq<string>)
    ensures |keys| <= 5
    ensures forall k :: 0 <= k < |keys| ==> keys[k] != ""
  {
    DashedKeysNonEmpty(f.distribution, VersionFacts(f));
    (if f.distribution == "" then [] else DashedKeys(f.distribution, VersionFacts(f)) + [f.distribution])
    + (if f.osFamily == "" then [] else [f.osFamily])
  }

  /** No dashed key is empty: each holds at least the dash. */
  lemma DashedKeysNonEmpty(dist: string, suffixes: seq<string>)
    ensures forall k :: 0 <= k < |DashedKeys(dist, suffixes)| ==> DashedKeys(dist, suffixes)[k] != ""
  {
  }

  /** Every dashed key is the distribution, a dash and a non-empty suffix from the list. */
  lemma {:induction false} DashedKeysSound(dist: string, suffixes: seq<string>)
    ensures forall k :: 0 <= k < |DashedKeys(dist, suffixes)| ==>
      exists s :: s in suffixes && s != "" && DashedKeys(dist, suffixes)[k] == dist + "-" + s
  {
    if suffixes == [] {
      assert DashedKeys(dist, suffixes) == [];
    } else {
      DashedKeysSound(dist, suffixes[1..]);
      var head := if suffixes[0] == "" then [] else [dist + "-" + suffixes[0]];
      var tail := DashedKeys(dist, suffixes[1..]);
      var keys := DashedKeys(dist, suffixes);
      assert keys == head + tail;
      forall k | 0 <= k < |keys|
        ensures exists s :: s in suffixes && s != "" && keys[k] == dist + "-" + s
      {
        if k < |head| {
          assert suffixes[0] in suffixes && keys[k] == dist + "-" + suffixes[0];
        } else {
          assert keys[k] == tail[k - |head|];
          var s :| s in suffixes[1..] && s != "" && tail[k - |head|] == dist + "-" + s;
          assert s in suffixes;
        }
      }
    }
  }

  /** Every non-empty suffix in the list gives its dashed key. */
  lemma {:induction false} DashedKeysComplete(dist: string, suffixes: seq<string>)
    ensures forall s :: s in suffixes && s != "" ==> dist + "-" + s in DashedKeys(dist, suffixes)
  {
    if suffixes != [] {
      DashedKeysComplete(dist, suffixes[1..]);
      var head := if suffixes[0] == "" then [] else [dist + "-" + suffixes[0]];
      var tail := DashedKeys(dist, suffixes[1..]);
      assert DashedKeys(dist, suffixes) == head + tail;
      forall s | s in suffixes && s != "" ensures dist + "-" + s in head + tail {
        if s == suffixes[0] {
          assert dist + "-" + s in head;
        } else {
          assert s in suffixes[1..];
        }
      }
    }
  }

  /** The dashed keys of the three version-like facts, one fact at a time. */
  lemma DashedKeysOfVersions(f: Facts)
    ensures DashedKeys(f.distribution, VersionFacts(f)) ==
      (if f.distributionVersion == "" then [] else [f.distribution + "-" + f.distributionVersion])
      + (if f.distributionMajorVersion == "" then [] else [f.distribution + "-" + f.distributionMajorVersion])
      + (if f.distributionRelease == "" then [] else [f.distribution + "-" + f.distributionRelease])
  {
    var d := f.distribution;
    assert VersionFacts(f)[1..] == [f.distributionMajorVersion, f.distributionRelease];
    assert VersionFacts(f)[1..][1..] == [f.distributionRelease];
    assert DashedKeys(d, [f.distributionRelease]) ==
      (if f.distributionRelease == "" then [] else [d + "-" + f.distributionRelease]) + DashedKeys(d, []);
  }

  /**
   * The source's construction of the key list: conditional appends to an
   * initially empty list.
   */
  method BuildKeys(facts: Facts) returns (keys: seq<string>)
    ensures keys == CandidateKeys(facts)
  {
    keys := [];
    if facts.distribution != "" {
      if facts.distributionVersion != "" {
        keys := keys + [facts.distribution + "-" + facts.distributionVersion];
      }
      if facts.distributionMajorVersion != "" {
        keys := keys + [facts.distribution + "-" + facts.distributionMajorVersion];
      }
      if facts.distributionRelease != "" {
        keys := keys + [facts.distribution + "-" + facts.distributionRelease];
      }
      keys := keys + [facts.distribution];
    }
    if facts.osFamily != "" {
      keys := keys + [facts.osFamily];
    }
    DashedKeysOfVersions(facts);
  }

  /** With every fact known, the key list is all five keys in their fixed order. */
  lemma CandidateKeysFull(f: Facts)
    requires f.distribution != "" && f.distributionVersion != ""
    requires f.distributionMajorVersion != "" && f.distributionRelease != ""
    requires f.osFamily != ""
    ensures CandidateKeys(f) == [
      f.distribution + "-" + f.distributionVersion,
      f.distribution + "-" + f.distributionMajorVersion,
      f.distribution + "-" + f.distributionRelease,
      f.distribution,
      f.osFamily]
  {
    DashedKeysOfVersions(f);
  }

  /** Without a distribution, only the OS family (if known) is a candidate. */
  lemma CandidateKeysWithoutDistribution(f: Facts)
    requires f.distribution == ""
    ensures CandidateKeys(f) == (if f.osFamily == "" then [] else [f.osFamily])
  {
  }

  /**
   * Which keys are candidates: the bare distribution exactly when it is known,
   * `distribution-suffix` for every known version-like fact, the OS family
   * when it is known, and nothing else. Every key that involves the
   * distribution is the distribution, a dash and a non-empty suffix, or the
   * bare distribution itself.
   */
  lemma CandidateKeysMembers(f: Facts)
    ensures f.distribution != "" ==> f.distribution in CandidateKeys(f)
    ensures f.osFamily != "" ==> f.osFamily in CandidateKeys(f)
    ensures forall s :: s in VersionFacts(f) && s != "" && f.distribution != "" ==>
      f.distribution + "-" + s in CandidateKeys(f)
    ensures forall k :: k in CandidateKeys(f) ==>
      (f.osFamily != "" && k == f.osFamily) ||
      (f.distribution != "" &&
        (k == f.distribution ||
         exists s :: s in VersionFacts(f) && s != "" && k == f.distribution + "-" + s))
  {
    DashedKeysSound(f.distribution, VersionFacts(f));
    DashedKeysComplete(f.distribution, VersionFacts(f));
    var keys := CandidateKeys(f);
    var dashed := DashedKeys(f.distribution, VersionFacts(f));
    forall k | k in keys
      ensures (f.osFamily != "" && k == f.osFamily) ||
        (f.distribution != "" &&
          (k == f.distribution ||
           exists s :: s in VersionFacts(f) && s != "" && k == f.distribution + "-" + s))
    {
      if f.distribution != "" && k in dashed {
        var i :| 0 <= i < |dashed| && dashed[i] == k;
      }
    }
  }

  // ---------------------------------------------------------------------------
  // Term resolution
  // ---------------------------------------------------------------------------

  /** The position of the first key (in key order) that the dictionary holds. */
  function FirstMatch<V>(keys: seq<string>, m: map<string, V>): (r: Option<nat>)
    ensures r.Some? ==> r.value < |keys| && keys[r.value] in m
    ensures r.Some? ==> forall k :: 0 <= k < r.value ==> keys[k] !in m
    ensures r.None? <==> forall k :: 0 <= k < |keys| ==> keys[k] !in m
  {
    if keys == [] then None
    else if keys[0] in m then Some(0)
    else match FirstMatch(keys[1..], m)
      case None => None
      case Some(i) => Some(i + 1)
  }

  /**
   * What one term contributes to the output, if anything: a string itself; for
   * a dictionary, the value at its first candidate key, or failing that its
   * "default" entry; for anything else, nothing.
   */
  function Resolve<O>(keys: seq<string>, term: Value<O>): (r: Option<Value<O>>)
    ensures term.Str? ==> r == Some(term)
    ensures term.Other? ==> r == None
  {
    match term
    case Str(_) => Some(term)
    case Dict(m) =>
      (match FirstMatch(keys, m)
       case Some(i) => Some(m[keys[i]])
       case None => if DefaultKey in m then Some(m[DefaultKey]) else None)
    case Other(_) => None
  }

  /** A string term is passed through unchanged whatever the keys. */
  lemma ResolveString<O>(keys: seq<string>, s: string)
    ensures Resolve<O>(keys, Str(s)) == Some(Str(s))
  {
  }

  /** A term that is neither a string nor a dictionary contributes nothing. */
  lemma ResolveOther<O>(keys: seq<string>, x: O)
    ensures Resolve(keys, Other(x)) == None
  {
  }

  /**
   * A dictionary that holds a candidate key resolves to the value at the
   * earliest one; a later candidate it also holds, and its "default" entry,
   * are ignored.
   */
  lemma ResolveEarliest<O>(keys: seq<string>, m: map<string, Value<O>>, j: nat)
    requires j < |keys| && keys[j] in m
    requires forall k :: 0 <= k < j ==> keys[k] !in m
    ensures Resolve(keys, Dict(m)) == Some(m[keys[j]])
  {
  }

  /**
   * A dictionary that holds no candidate key resolves to its "default" entry
   * when it has one and contributes nothing otherwise.
   */
  lemma ResolveFallback<O>(keys: seq<string>, m: map<string, Value<O>>)
    requires forall k :: 0 <= k < |keys| ==> keys[k] !in m
    ensures DefaultKey in m ==> Resolve(keys, Dict(m)) == Some(m[DefaultKey])
    ensures DefaultKey !in m ==> Resolve(keys, Dict(m)) == None
  {
  }

  /**
   * What a dictionary resolves to is always one of its own entries, found
   * under a candidate key or under "default".
   */
  lemma ResolveDictSource<O>(keys: seq<string>, m: map<string, Value<O>>)
    requires Resolve(keys, Dict(m)).Some?
    ensures exists k :: (k in keys || k == DefaultKey) && k in m && Resolve(keys, Dict(m)).value == m[k]
  {
  }

  /**
   * A dictionary contributes a value exactly when it holds a candidate key
   * or a "default" entry.
   */
  lemma ResolveDictDefined<O>(keys: seq<string>, m: map<string, Value<O>>)
    ensures Resolve(keys, Dict(m)).Some? <==>
      (exists k :: 0 <= k < |keys| && keys[k] in m) || DefaultKey in m
  {
    if !(forall k :: 0 <= k < |keys| ==> keys[k] !in m) {
      var k :| 0 <= k < |keys| && keys[k] in m;
    }
  }

  /** The output entries of one term: none or one. */
  function Contribution<O>(keys: seq<string>, term: Value<O>): (out: seq<Value<O>>)
    ensures |out| <= 1
  {
    match Resolve(keys, term)
    case None => []
    case Some(v) => [v]
  }

  /** The output of `flatten`: the contributions of the terms, in term order. */
  function ResolveAll<O>(keys: seq<string>, terms: seq<Value<O>>): (out: seq<Value<O>>)
    ensures |out| <= |terms|
  {
    if terms == [] then []
    else Contribution(keys, terms[0]) + ResolveAll(keys, terms[1..])
  }

  /** Resolution of a concatenation is the concatenation of the resolutions. */
  lemma {:induction false} ResolveAllAppend<O>(keys: seq<string>, a: seq<Value<O>>, b: seq<Value<O>>)
    ensures ResolveAll(keys, a + b) == ResolveAll(keys, a) + ResolveAll(keys, b)
  {
    if a == [] {
      assert a + b == b;
    } else {
      assert (a + b)[1..] == a[1..] + b;
      ResolveAllAppend(keys, a[1..], b);
    }
  }

  /** A term list made only of strings comes back unchanged, whatever the keys. */
  lemma {:induction false} ResolveAllStrings<O>(keys: seq<string>, terms: seq<Value<O>>)
    requires forall i :: 0 <= i < |terms| ==> terms[i].Str?
    ensures ResolveAll(keys, terms) == terms
  {
    if terms != [] {
      ResolveAllStrings(keys, terms[1..]);
      assert [terms[0]] + terms[1..] == terms;
    }
  }

  /**
   * When every term resolves, the output has one entry per term and entry i
   * is what term i resolves to.
   */
  lemma {:induction false} ResolveAllTotal<O>(keys: seq<string>, terms: seq<Value<O>>)
    requires forall i :: 0 <= i < |terms| ==> Resolve(keys, terms[i]).Some?
    ensures |ResolveAll(keys, terms)| == |terms|
    ensures forall i :: 0 <= i < |terms| ==> ResolveAll(keys, terms)[i] == Resolve(keys, terms[i]).value
  {
    if terms != [] {
      ResolveAllTotal(keys, terms[1..]);
      var out := ResolveAll(keys, terms);
      assert out == [Resolve(keys, terms[0]).value] + ResolveAll(keys, terms[1..]);
      forall i | 0 <= i < |terms| ensures out[i] == Resolve(keys, terms[i]).value {
        if i > 0 {
          assert out[i] == ResolveAll(keys, terms[1..])[i - 1];
          assert terms[1..][i - 1] == terms[i];
        }
      }
    }
  }

  /** The positions strictly increase. */
  predicate Increasing(p: seq<nat>)
  {
    forall k, l :: 0 <= k < l < |p| ==> p[k] < p[l]
  }

  /** Every position moved one place to the right. */
  function Shifted(p: seq<nat>): (q: seq<nat>)
    ensures |q| == |p| && forall k :: 0 <= k < |p| ==> q[k] == p[k] + 1
  {
    seq(|p|, k requires 0 <= k < |p| => p[k] + 1)
  }

  /** The positions of the terms that resolve, in increasing order. */
  function ResolvedPositions<O>(keys: seq<string>, terms: seq<Value<O>>): seq<nat>
  {
    if terms == [] then []
    else (if Resolve(keys, terms[0]).Some? then [0] else []) + Shifted(ResolvedPositions(keys, terms[1..]))
  }

  /** Output entry k is what the term at position k resolves to. */
  lemma {:induction false} ResolvedPositionsSource<O>(keys: seq<string>, terms: seq<Value<O>>)
    ensures var out, p := ResolveAll(keys, terms), ResolvedPositions(keys, terms);
      && |p| == |out|
      && (forall k :: 0 <= k < |p| ==> p[k] < |terms| && Resolve(keys, terms[p[k]]) == Some(out[k]))
  {
    if terms != [] {
      var tail := terms[1..];
      ResolvedPositionsSource(keys, tail);
      var out, p := ResolveAll(keys, terms), ResolvedPositions(keys, terms);
      var rout, rest := ResolveAll(keys, tail), ResolvedPositions(keys, tail);
      var head: seq<nat> := if Resolve(keys, terms[0]).Some? then [0] else [];
      var q := Shifted(rest);
      assert p == head + q;
      assert out == Contribution(keys, terms[0]) + rout;
      assert |Contribution(keys, terms[0])| == |head|;
      forall k | 0 <= k < |p|
        ensures p[k] < |terms| && Resolve(keys, terms[p[k]]) == Some(out[k])
      {
        if k < |head| {
          assert p[k] == 0 && out[k] == Resolve(keys, terms[0]).value;
        } else {
          var j := k - |head|;
          assert p[k] == q[j] == rest[j] + 1;
          assert out[k] == rout[j];
          assert terms[rest[j] + 1] == tail[rest[j]];
        }
      }
    }
  }

  /** The positions strictly increase: each term contributes at most once, in order. */
  lemma {:induction false} ResolvedPositionsIncreasing<O>(keys: seq<string>, terms: seq<Value<O>>)
    ensures Increasing(ResolvedPositions(keys, terms))
  {
    if terms != [] {
      var p, rest := ResolvedPositions(keys, terms), ResolvedPositions(keys, terms[1..]);
      ResolvedPositionsIncreasing(keys, terms[1..]);
      ShiftedIncreasing(rest);
      if Resolve(keys, terms[0]).Some? {
        assert p == [0] + Shifted(rest);
      } else {
        assert p == Shifted(rest);
      }
    }
  }

  /** Shifting keeps the positions increasing, and a leading 0 may go in front. */
  lemma ShiftedIncreasing(p: seq<nat>)
    requires Increasing(p)
    ensures Increasing(Shifted(p)) && Increasing([0] + Shifted(p))
  {
  }

  /** A term has a position exactly when it resolves. */
  lemma {:induction false} ResolvedPositionsComplete<O>(keys: seq<string>, terms: seq<Value<O>>)
    ensures forall i :: 0 <= i < |terms| ==>
      (i in ResolvedPositions(keys, terms) <==> Resolve(keys, terms[i]).Some?)
  {
    if terms != [] {
      var tail := terms[1..];
      var p, rest := ResolvedPositions(keys, terms), ResolvedPositions(keys, tail);
      ResolvedPositionsComplete(keys, tail);
      ShiftedMembers(rest);
      var head: seq<nat> := if Resolve(keys, terms[0]).Some? then [0] else [];
      assert p == head + Shifted(rest);
      forall i | 0 <= i < |terms| ensures i in p <==> Resolve(keys, terms[i]).Some? {
        if i > 0 {
          assert terms[i] == tail[i - 1];
          assert i in p <==> i - 1 in rest;
        }
      }
    }
  }

  /** A shifted position list never holds 0, and holds i + 1 exactly when the original holds i. */
  lemma ShiftedMembers(p: seq<nat>)
    ensures 0 !in Shifted(p)
    ensures forall i: nat :: i + 1 in Shifted(p) <==> i in p
  {
  }

  /**
   * The output is exactly the subsequence of resolved terms: entry k comes
   * from term p[k], the positions p strictly increase (each term contributes
   * at most one entry, in input order), and a term has a position exactly
   * when it resolves.
   */
  lemma ResolveAllSubsequence<O>(keys: seq<string>, terms: seq<Value<O>>)
    ensures var out, p := ResolveAll(keys, terms), ResolvedPositions(keys, terms);
      && |p| == |out|
      && (forall k :: 0 <= k < |p| ==> p[k] < |terms| && Resolve(keys, terms[p[k]]) == Some(out[k]))
      && Increasing(p)
      && (forall i :: 0 <= i < |terms| ==> (i in p <==> Resolve(keys, terms[i]).Some?))
  {
    ResolvedPositionsSource(keys, terms);
    ResolvedPositionsIncreasing(keys, terms);
    ResolvedPositionsComplete(keys, terms);
  }

  /**
   * The source's `flatten`: build the key list, then walk the terms, growing
   * the result by one entry per resolved term. The inner loop over the keys
   * stops at the first key the dictionary holds; `matched` records whether it
   * stopped early, which is when the `else` branch of the source's `for` loop
   * (the "default" fallback) is skipped.
   */
  method Flatten<O>(terms: seq<Value<O>>, facts: Facts) returns (ret: seq<Value<O>>)
    ensures ret == ResolveAll(CandidateKeys(facts), terms)
  {
    var keys := BuildKeys(facts);
    ret := [];
    for i := 0 to |terms|
      invariant ret == ResolveAll(keys, terms[..i])
    {
      var term := terms[i];
      ghost var before := ret;
      match term {
        case Str(_) =>
          ret := ret + [term];
        case Dict(m) =>
          var matched := false;
          var j := 0;
          while j < |keys|
            invariant 0 <= j <= |keys|
            invariant !matched && ret == before
            invariant forall k :: 0 <= k < j ==> keys[k] !in m
          {
            if keys[j] in m {
              ResolveEarliest(keys, m, j);
              ret := ret + [m[keys[j]]];
              matched := true;
              break;
            }
            j := j + 1;
          }
          if !matched {
            if DefaultKey in m {
              ret := ret + [m[DefaultKey]];
            }
          }
        case Other(_) =>
      }
      assert ret == before + Contribution(keys, term);
      assert terms[..i + 1] == terms[..i] + [term];
      ResolveAllAppend(keys, terms[..i], [term]);
    }
    assert terms[..|terms|] == terms;
  }

  // ---------------------------------------------------------------------------
  // Worked examples
  // ---------------------------------------------------------------------------

  /** A dictionary term with an exact version match yields that entry. */
  lemma ExampleExactVersion()
    ensures ResolveAll(
      CandidateKeys(Facts("Ubuntu", "20.04", "20", "focal", "Debian")),
      [Dict(map["Ubuntu-20.04" := Str("a"), "Ubuntu" := Str("b"), DefaultKey := Str("c")])])
      == [Value<int>.Str("a")]
  {
    var f := Facts("Ubuntu", "20.04", "20", "focal", "Debian");
    var m := map["Ubuntu-20.04" := Value<int>.Str("a"), "Ubuntu" := Str("b"), DefaultKey := Str("c")];
    CandidateKeysFull(f);
    assert "Ubuntu" + "-" + "20.04" == "Ubuntu-20.04";
    ResolveEarliest(CandidateKeys(f), m, 0);
  }

  /**
   * A version that no entry names falls through to the bare distribution,
   * ahead of the "default" entry.
   */
  lemma ExampleDistributionOnly()
    ensures ResolveAll(
      CandidateKeys(Facts("Ubuntu", "21.10", "21", "impish", "Debian")),
      [Dict(map["Ubuntu-20.04" := Str("a"), "Ubuntu" := Str("b"), DefaultKey := Str("c")])])
      == [Value<int>.Str("b")]
  {
    var f := Facts("Ubuntu", "21.10", "21", "impish", "Debian");
    var m := map["Ubuntu-20.04" := Value<int>.Str("a"), "Ubuntu" := Str("b"), DefaultKey := Str("c")];
    var keys := CandidateKeys(f);
    CandidateKeysFull(f);
    assert keys[0] == "Ubuntu-21.10" && keys[1] == "Ubuntu-21" && keys[2] == "Ubuntu-impish";
    assert keys[0] !in m && keys[1] !in m && keys[2] !in m;
    ResolveEarliest(keys, m, 3);
  }

  /** With no candidate key present, the "default" entry is used. */
  lemma ExampleDefault()
    ensures ResolveAll(
      CandidateKeys(Facts("Fedora", "38", "38", "", "RedHat")),
      [Dict(map[DefaultKey := Str("z")])])
      == [Value<int>.Str("z")]
  {
    var f := Facts("Fedora", "38", "38", "", "RedHat");
    var keys := CandidateKeys(f);
    DashedKeysOfVersions(f);
    assert "Fedora" + "-" + "38" == "Fedora-38";
    assert keys == ["Fedora-38", "Fedora-38", "Fedora", "RedHat"];
  }

  /**
   * A dictionary with neither a candidate key nor a "default" entry is
   * dropped, so the output is shorter than the term list.
   */
  lemma ExampleDropped()
    ensures ResolveAll(
      CandidateKeys(Facts("Fedora", "38", "38", "", "RedHat")),
      [Str("t"), Dict(map["CentOS" := Str("x")])])
      == [Value<int>.Str("t")]
  {
    var f := Facts("Fedora", "38", "38", "", "RedHat");
    var keys := CandidateKeys(f);
    var terms := [Value<int>.Str("t"), Dict(map["CentOS" := Str("x")])];
    DashedKeysOfVersions(f);
    assert "Fedora" + "-" + "38" == "Fedora-38";
    assert keys == ["Fedora-38", "Fedora-38", "Fedora", "RedHat"];
    assert terms[1..][1..] == [];
  }
}
