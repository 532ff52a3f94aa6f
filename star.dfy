/**
 * The star entity: a persistent record with a store-assigned id, a name and
 * a distance in light-years. Equality and hashing look at the name only.
 */
module Stars {
  import opened Errors

  /** 2^32 and 2^31: a Java `int` is a 32-bit two's-complement value. */
  const TwoTo32: int := 0x1_0000_0000
  const TwoTo31: int := 0x8000_0000

  /** A Java `int` value. */
  predicate IsInt32(x: int)
  {
    -TwoTo31 <= x < TwoTo31
  }

  /** Reads an unsigned 32-bit pattern as the Java `int` with the same bits. */
  function ToInt32(bits: int): (r: int)
    requires 0 <= bits < TwoTo32
    ensures IsInt32(r)
    ensures (r - bits) % TwoTo32 == 0
  {
    if bits < TwoTo31 then bits else bits - TwoTo32
  }

  /**
   * `String.hashCode` as a 32-bit pattern: h := 31 * h + c over the
   * characters, wrapping modulo 2^32.
   */
  function StringHashBits(s: string): (h: int)
    ensures 0 <= h < TwoTo32
  {
    if s == [] then 0 else (31 * StringHashBits(s[..|s| - 1]) + s[|s| - 1] as int) % TwoTo32
  }

  /** `Objects.hash(name)`: 31 * 1 + name.hashCode(), wrapping at 32 bits. */
  function NameHash(name: string): (h: int)
    ensures IsInt32(h)
  {
    ToInt32((31 + StringHashBits(name)) % TwoTo32)
  }

  /** Where `String.trim`'s forward scan stops: the first character above U+0020, or the end. */
  function TrimStart(s: string): (i: nat)
    ensures i <= |s|
    ensures forall k | 0 <= k < i :: s[k] <= ' '
    ensures i < |s| ==> ' ' < s[i]
  {
    if s == [] || ' ' < s[0] then 0 else 1 + TrimStart(s[1..])
  }

  /**
   * Where `String.trim`'s backward scan stops, never going below `i`: just
   * after the last character above U+0020, or `i`.
   */
  function TrimEnd(s: string, i: nat): (j: nat)
    requires i <= |s|
    ensures i <= j <= |s|
    ensures forall k | j <= k < |s| :: s[k] <= ' '
    ensures i < j ==> ' ' < s[j - 1]
  {
    if |s| == i || ' ' < s[|s| - 1] then |s| else TrimEnd(s[..|s| - 1], i)
  }

  /**
   * `String.trim`: the slice of `s` left after dropping the characters at or
   * below U+0020 from both ends.
   */
  function Trim(s: string): (t: string)
    ensures exists i, j | 0 <= i <= j <= |s| ::
      && t == s[i..j]
      && (forall k | 0 <= k < i :: s[k] <= ' ')
      && (forall k | j <= k < |s| :: s[k] <= ' ')
    ensures t != [] ==> ' ' < t[0] && ' ' < t[|t| - 1]
  {
    var i := TrimStart(s);
    s[i..TrimEnd(s, i)]
  }

  /** Trimming leaves nothing exactly when every character is a space or a control character. */
  lemma TrimEmptyIffBlank(s: string)
    ensures Trim(s) == [] <==> forall k | 0 <= k < |s| :: s[k] <= ' '
  {
    if exists k | 0 <= k < |s| :: ' ' < s[k] {
      var k :| 0 <= k < |s| && ' ' < s[k];
      var start := TrimStart(s);
      assert start <= k;
      assert start < TrimEnd(s, start);
    }
  }

  /** The `@NotBlank` constraint: something is left after trimming, that is, some character is above U+0020. */
  predicate NotBlank(s: string)
    ensures NotBlank(s) <==> exists k | 0 <= k < |s| :: ' ' < s[k]
  {
    TrimEmptyIffBlank(s);
    Trim(s) != []
  }

  class Star {
    /** `@Id @GeneratedValue`: assigned by the store on the first save, absent before. */
    var id: Option<int>
    /** `@NotBlank` */
    var name: string
    /** `@PositiveOrZero` */
    var distance: int

    /** `Star(name, distance)`: a transient star with no id yet. */
    constructor (name: string, distance: int)
      ensures this.id == None
      ensures this.name == name && this.distance == distance
    {
      this.id := None;
      this.name := name;
      this.distance := distance;
    }

    /** `setName`: replaces the name and nothing else. */
    method SetName(name: string)
      modifies this
      ensures this.name == name
      ensures id == old(id) && distance == old(distance)
    {
      this.name := name;
    }

    /** `setDistance`: replaces the distance and nothing else. */
    method SetDistance(distance: int)
      modifies this
      ensures this.distance == distance
      ensures id == old(id) && name == old(name)
    {
      this.distance := distance;
    }

    /**
     * `equals`: true for the same object, false for anything that is not a
     * star (null included), otherwise name equality.
     */
    function Equals(o: object?): (r: bool)
      reads this, o
      ensures r <==> o is Star && (o as Star).name == name
    {
      this == o || (o is Star && (o as Star).name == name)
    }

    /** `hashCode`: `Objects.hash(name)`. */
    function HashCode(): (h: int)
      reads this
      ensures IsInt32(h)
    {
      NameHash(name)
    }

    /**
     * The declared bean-validation constraints of the entity: a name with a
     * character above U+0020 and a distance of at least 0.
     */
    predicate IsValid()
      reads this
      ensures IsValid() <==> 0 <= distance && exists k | 0 <= k < |name| :: ' ' < name[k]
    {
      NotBlank(name) && 0 <= distance
    }
  }

  /** Two stars are equal exactly when their names are, whatever their ids and distances. */
  lemma EqualsIffSameName(a: Star, b: Star)
    ensures a.Equals(b) <==> a.name == b.name
  {
  }

  lemma EqualsReflexive(a: Star)
    ensures a.Equals(a)
  {
  }

  lemma EqualsSymmetric(a: Star, b: Star)
    ensures a.Equals(b) <==> b.Equals(a)
  {
  }

  lemma EqualsTransitive(a: Star, b: Star, c: Star)
    requires a.Equals(b) && b.Equals(c)
    ensures a.Equals(c)
  {
  }

  /** Equal stars have equal hash codes, so hashed collections see them as duplicates. */
  lemma HashCodeConsistentWithEquals(a: Star, b: Star)
    requires a.Equals(b)
    ensures a.HashCode() == b.HashCode()
  {
  }
}
