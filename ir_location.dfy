/**
 * `Location`: a guest address that identifies a block start.  Equality,
 * the orderings and the standard-library `less` and `hash` all look at
 * the wrapped value only.
 */
module IrLocation {

  const SizeLimit: nat := 0x1_0000_0000_0000_0000

  /** A size_t value; a default-constructed Location holds 0. */
  datatype Location = Location(value: nat)

  const DefaultLocation: Location := Location(0)

  predicate Valid(l: Location)
  {
    l.value < SizeLimit
  }

  /** operator== and operator!=. */
  predicate Equal(x: Location, y: Location)
  {
    x.value == y.value
  }

  predicate NotEqual(x: Location, y: Location)
  {
    !Equal(x, y)
  }

  /** operator< and operator>, also `std::less<Location>`. */
  predicate Less(x: Location, y: Location)
  {
    x.value < y.value
  }

  predicate Greater(x: Location, y: Location)
  {
    x.value > y.value
  }

  /** `std::hash<Location>`: a hash of the value, with the size_t hash given as a parameter. */
  function Hash(x: Location, sizeHash: nat -> nat): nat
  {
    sizeHash(x.value)
  }

  /** Equality of Locations is equality of their values, so == is the identity on Locations. */
  lemma EqualIsIdentity(x: Location, y: Location)
    ensures Equal(x, y) <==> x == y
    ensures NotEqual(x, y) <==> x != y
  {
  }

  /** < is a strict total order: irreflexive, transitive, and any two distinct Locations compare. */
  lemma LessIsStrictTotal(x: Location, y: Location, z: Location)
    ensures !Less(x, x)
    ensures Less(x, y) && Less(y, z) ==> Less(x, z)
    ensures x != y ==> Less(x, y) || Less(y, x)
    ensures !(Less(x, y) && Less(y, x))
    ensures Greater(x, y) <==> Less(y, x)
  {
  }

  /** Equal Locations hash alike, whatever the size_t hash is. */
  lemma HashRespectsEqual(x: Location, y: Location, sizeHash: nat -> nat)
    requires Equal(x, y)
    ensures Hash(x, sizeHash) == Hash(y, sizeHash)
  {
  }
}
