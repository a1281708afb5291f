/** `Set`: a presence map from strings, updated in place. */
module Sets {

  class Set {
    /** The keys of the Go map `set`; the stored `struct{}` carries nothing. */
    var members: set<string>

    /** `NewSet()`: an empty set. */
    constructor ()
      ensures members == {}
    {
      members := {};
    }

    /** `add`: records `str`; adding a present key changes nothing. */
    method Add(str: string)
      modifies this
      ensures members == old(members) + {str}
    {
      members := members + {str};
    }

    /** `find`: whether `str` has been added. */
    method Find(str: string) returns (ok: bool)
      ensures ok <==> str in members
    {
      ok := str in members;
    }
  }
}
