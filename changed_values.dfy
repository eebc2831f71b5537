/** getChangedValues (utils/getChangedValues.ts): the partial object of the
    fields an edit actually changed. A JavaScript object is modelled by the
    map of its own enumerable keys to their values; reading a key the object
    does not own gives `undefined`, which differs from every value a map
    holds. */
module ChangedValues {

  /** The keys of `updated` whose value differs from `original`'s (or that
      `original` lacks), each with its value in `updated`. */
  function Changes<K, V(==)>(original: map<K, V>, updated: map<K, V>): map<K, V> {
    map k | k in updated && (k !in original || original[k] != updated[k]) :: updated[k]
  }

  /** The `for...in` loop over `updated`'s own keys, adding each changed key
      to a fresh `changes` object; neither input is modified (both are values). */
  method GetChangedValues<K, V(==)>(original: map<K, V>, updated: map<K, V>) returns (changes: map<K, V>)
    ensures changes == Changes(original, updated)
    ensures forall k :: k in changes <==> k in updated && (k !in original || original[k] != updated[k])
    ensures forall k :: k in changes ==> changes[k] == updated[k]
    ensures forall k :: k in updated ==> (original + changes)[k] == updated[k]
  {
    changes := map[];
    var pending := updated.Keys;
    while pending != {}
      invariant pending <= updated.Keys
      invariant forall k :: k in changes <==> k in updated && k !in pending && (k !in original || original[k] != updated[k])
      invariant forall k :: k in changes ==> changes[k] == updated[k]
      decreases pending
    {
      var key :| key in pending;
      if key !in original || original[key] != updated[key] {
        changes := changes[key := updated[key]];
      }
      pending := pending - {key};
    }
  }

  /** Overlaying the changes onto the original gives the same object as
      overlaying the whole of `updated`: nothing `updated` says is lost. */
  lemma OverlayRoundTrip<K, V>(original: map<K, V>, updated: map<K, V>)
    ensures original + Changes(original, updated) == original + updated
  {
    var lhs := original + Changes(original, updated);
    var rhs := original + updated;
    assert lhs.Keys == rhs.Keys;
    forall k | k in lhs.Keys
      ensures lhs[k] == rhs[k]
    {
    }
  }

  /** An edit that agrees with the original on every key it has produces no
      change, and conversely. */
  lemma NoChangesIffAgree<K, V>(original: map<K, V>, updated: map<K, V>)
    ensures Changes(original, updated) == map[] <==>
      forall k :: k in updated ==> k in original && original[k] == updated[k]
  {
    if Changes(original, updated) == map[] {
      forall k | k in updated
        ensures k in original && original[k] == updated[k]
      {
        assert k !in Changes(original, updated);
      }
    }
  }

  /** Diffing again after the changes were applied finds nothing left to change. */
  lemma ChangesSettle<K, V>(original: map<K, V>, updated: map<K, V>)
    ensures Changes(original + Changes(original, updated), updated) == map[]
  {
    OverlayRoundTrip(original, updated);
    NoChangesIffAgree(original + updated, updated);
  }
}
