/** The closing checks of the elastic scanner test. The scan interleaves with inserts,
    deletes, updates and compactions, and the test records the keys each one touched;
    which changes the scan sees is not tracked, so the checks are containments: every
    key the scan returned must be accounted for, and so must every initial key. */
module ElasticChecks {
  import opened Wire

  /** The first check that fails and the keys it could not account for. */
  datatype ElasticVerdict =
    | ElasticPassed
    | UnaccountedReturns(missing: set<Key>)
    | MissingInitial(missing: set<Key>)

  /** The keys of `s` that none of `covers` accounts for, collected one at a time. */
  method Unaccounted(s: set<Key>, covers: set<Key>) returns (missing: set<Key>)
    ensures missing == s - covers
  {
    missing := {};
    var todo := s;
    while todo != {}
      invariant todo <= s && missing == (s - todo) - covers
      decreases |todo|
    {
      var value :| value in todo;
      if value !in covers {
        missing := missing + {value};
      }
      todo := todo - {value};
    }
  }

  /** Check 1: every returned key is an initial, inserted or update-target key. Check 2:
      every initial key was returned, deleted, updated away or caught as a stray tuple
      of a compaction. */
  method ElasticCheck(initial: set<Key>, inserts: set<Key>, updateSources: set<Key>, updateTargets: set<Key>,
                      deletes: set<Key>, scanned: set<Key>, shuffles: set<Key>)
    returns (v: ElasticVerdict)
    ensures v == ElasticPassed <==>
      scanned <= initial + inserts + updateTargets
      && initial <= scanned + deletes + updateSources + shuffles
    ensures v.UnaccountedReturns? ==>
      v.missing == scanned - (initial + inserts + updateTargets) && v.missing != {}
    ensures v.MissingInitial? ==>
      scanned <= initial + inserts + updateTargets
      && v.missing == initial - (scanned + deletes + updateSources + shuffles) && v.missing != {}
  {
    var missing := Unaccounted(scanned, initial + inserts + updateTargets);
    if missing != {} {
      return UnaccountedReturns(missing);
    }
    assert scanned <= initial + inserts + updateTargets by {
      forall k | k in scanned ensures k in initial + inserts + updateTargets {
        assert k !in missing;
      }
    }
    missing := Unaccounted(initial, scanned + deletes + updateSources + shuffles);
    if missing != {} {
      return MissingInitial(missing);
    }
    v := ElasticPassed;
  }
}
