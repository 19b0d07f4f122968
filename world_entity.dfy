/**
 * `WorldEntity`: an entity of the world model, with a map of named properties and a map of
 * child entities. The module models the recursive state comparison, the one-deep link to a
 * previous state, the recursive time stamp, and the typed property getters.
 */
module World {
  import opened Common

  /** The `Serializable` property values the getters distinguish. */
  datatype Value =
    | Bool(b: bool)
    | Int(i: int32)
    | Str(s: string)
    | Other(text: string)   // any other class, known only by its `toString()`

  /** The `IllegalArgumentException`s of the typed getters. */
  datatype GetterError = NoBooleanProperty(entity: string, name: string) | NoIntegerProperty(entity: string, name: string)

  /** What `hasSameState` compares: position, velocity, extent, properties and, recursively, the children. */
  datatype EntityState = EntityState(
    position: Option<Vec3>,
    velocity: Option<Vec3>,
    extent: Option<Vec3>,
    properties: map<string, Value>,
    elements: map<string, EntityState>)

  /** `equal_`: null equals only null; otherwise `a.equals(b)`. */
  function Equal(a: Option<Vec3>, b: Option<Vec3>): (r: bool)
    ensures r <==> a == b
  {
    if a.None? then b.None? else b.Some? && a.value == b.value
  }

  /** Two maps of equal size, one contained in the other, are equal. */
  lemma {:induction false} SameSizeSubmap<V>(a: map<string, V>, b: map<string, V>)
    requires |a| == |b|
    requires forall k :: k in a ==> k in b && a[k] == b[k]
    ensures a == b
  {
    SameSizeSubset(a.Keys, b.Keys);
  }

  lemma {:induction false} SameSizeSubset(a: set<string>, b: set<string>)
    requires a <= b && |a| == |b|
    ensures a == b
  {
    if a != {} {
      var x :| x in a;
      SameSizeSubset(a - {x}, b - {x});
    }
  }

  /** Every character of `s` is a decimal digit. */
  predicate IsDigits(s: string)
  {
    forall i :: 0 <= i < |s| ==> '0' <= s[i] <= '9'
  }

  /** The text `Integer.toString` gives for a magnitude: digits, with no leading zero except in `"0"` itself. */
  predicate IsCanonicalDecimal(s: string)
  {
    |s| > 0 && IsDigits(s) && (s[0] == '0' ==> s == "0")
  }

  /** `Integer.toString` of a non-negative value. */
  function NatToString(n: nat): (r: string)
    ensures IsCanonicalDecimal(r)
    ensures r[0] == '0' <==> n == 0
  {
    var d := "0123456789"[n % 10];
    DigitValue(n % 10);
    if n < 10 then [d] else NatToString(n / 10) + [d]
  }

  /**
   * `Integer.toString`: a minus sign for negative values, then the canonical decimal digits of
   * the magnitude, which read back as the value.
   */
  function IntToString(i: int): (r: string)
    ensures |r| > 0 && (r[0] == '-' <==> i < 0)
    ensures i >= 0 ==> IsCanonicalDecimal(r) && ParseDigits(r) == i
    ensures i < 0 ==> IsCanonicalDecimal(r[1..]) && ParseDigits(r[1..]) == -i
  {
    if i < 0 then
      NatToStringRoundTrip(-i);
      SignDropped(NatToString(-i));
      "-" + NatToString(-i)
    else
      NatToStringRoundTrip(i);
      NatToString(i)
  }

  /** Dropping the sign of `"-" + s` gives back `s`. */
  lemma SignDropped(s: string)
    ensures ("-" + s)[1..] == s
  {
  }

  /** `Integer.parseInt` of a digit string, the reference reading of `NatToString`. */
  function ParseDigits(s: string): nat
    requires IsDigits(s)
  {
    if s == [] then 0 else ParseDigits(s[..|s| - 1]) * 10 + (s[|s| - 1] as int - '0' as int)
  }

  /** The decimal text of a value reads back as that value. */
  lemma {:induction false} NatToStringRoundTrip(n: nat)
    ensures ParseDigits(NatToString(n)) == n
  {
    var s := NatToString(n);
    DigitValue(n % 10);
    if n >= 10 {
      NatToStringRoundTrip(n / 10);
      assert s[..|s| - 1] == NatToString(n / 10);
    }
  }

  /** The digit character of `d` encodes `d`. */
  lemma DigitValue(d: nat)
    requires d < 10
    ensures "0123456789"[d] as int - '0' as int == d
  {
    if d < 5 {
      assert d == 0 || d == 1 || d == 2 || d == 3 || d == 4;
    } else {
      assert d == 5 || d == 6 || d == 7 || d == 8 || d == 9;
    }
  }

  /** A digit string that does not start with `0` reads as a positive number. */
  lemma {:induction false} LeadingDigitPositive(s: string)
    requires |s| > 0 && IsDigits(s) && s[0] != '0'
    ensures ParseDigits(s) >= 1
  {
    if |s| > 1 {
      LeadingDigitPositive(s[..|s| - 1]);
    }
  }

  /** Two canonical decimals that read as the same number are the same text. */
  lemma {:induction false} CanonicalDecimalUnique(a: string, b: string)
    requires IsCanonicalDecimal(a) && IsCanonicalDecimal(b) && ParseDigits(a) == ParseDigits(b)
    ensures a == b
    decreases |a|
  {
    var a', b' := a[..|a| - 1], b[..|b| - 1];
    var da, db := a[|a| - 1] as int - '0' as int, b[|b| - 1] as int - '0' as int;
    assert ParseDigits(a) == ParseDigits(a') * 10 + da;
    assert ParseDigits(b) == ParseDigits(b') * 10 + db;
    assert da == db && ParseDigits(a') == ParseDigits(b');
    assert a[|a| - 1] == b[|b| - 1];
    if |a| > 1 {
      assert a' != [] && a'[0] == a[0] != '0';
      LeadingDigitPositive(a');
    }
    if |b| > 1 {
      assert b' != [] && b'[0] == b[0] != '0';
      LeadingDigitPositive(b');
    }
    if |a| > 1 && |b| > 1 {
      CanonicalDecimalUnique(a', b');
      assert a == a' + [a[|a| - 1]] && b == b' + [b[|b| - 1]];
    }
  }

  /** The contract of `IntToString` admits one text only: it pins `Integer.toString` down. */
  lemma IntToStringPinned(i: int, r: string)
    requires |r| > 0 && (r[0] == '-' <==> i < 0)
    requires i >= 0 ==> IsCanonicalDecimal(r) && ParseDigits(r) == i
    requires i < 0 ==> IsCanonicalDecimal(r[1..]) && ParseDigits(r[1..]) == -i
    ensures r == IntToString(i)
  {
    var t := IntToString(i);
    if i >= 0 {
      CanonicalDecimalUnique(r, t);
    } else {
      CanonicalDecimalUnique(r[1..], t[1..]);
      assert r == [r[0]] + r[1..] && t == [t[0]] + t[1..];
    }
  }

  /**
   * `toString()` of each kind of value: Java prints booleans in lower case, integers in
   * decimal, and a string as itself.
   */
  function ValueToString(v: Value): (r: string)
    ensures v.Bool? ==> (r == "true" || r == "false") && (r == "true" <==> v.b)
    ensures v.Int? && v.i >= 0 ==> IsCanonicalDecimal(r) && ParseDigits(r) == v.i as int
    ensures v.Int? && v.i < 0 ==> |r| > 0 && r[0] == '-' && IsCanonicalDecimal(r[1..]) && ParseDigits(r[1..]) == -(v.i as int)
    ensures v.Str? ==> r == v.s
  {
    match v
    case Bool(b) => if b then "true" else "false"
    case Int(i) => IntToString(i as int)
    case Str(s) => s
    case Other(text) => text
  }

  class WorldEntity {
    const id: string
    const entityType: string
    const interactable: bool
    const dynamic: bool

    var timestamp: int
    var position: Option<Vec3>
    var extent: Option<Vec3>
    var velocity: Option<Vec3>
    var properties: map<string, Value>
    var elements: map<string, WorldEntity>
    var previousState: WorldEntity?

    /** This entity and all its descendants. */
    ghost var Repr: set<WorldEntity>

    /**
     * The element maps form a finite acyclic structure inside the footprint `Repr`. Only the
     * `elements` and `Repr` fields are read, so changing time stamps, positions or properties
     * keeps the structure intact.
     */
    ghost predicate Acyclic()
      reads this`elements, this`Repr, Repr`elements, Repr`Repr
      decreases Repr
    {
      this in Repr
      && forall k :: k in elements ==>
           elements[k] in Repr && elements[k].Repr <= Repr && this !in elements[k].Repr && elements[k].Acyclic()
    }

    /** The objects the children's footprints hold. */
    ghost function Descendants(): set<WorldEntity>
      reads this`elements, elements.Values`Repr
    {
      set k, o | k in elements && o in elements[k].Repr :: o
    }

    /** An acyclic structure whose every footprint is exactly its entity and its descendants. */
    ghost predicate Valid()
      reads this`elements, this`Repr, Repr`elements, Repr`Repr
      decreases Repr
    {
      this in Repr
      && (forall k :: k in elements ==>
            elements[k] in Repr && elements[k].Repr <= Repr && this !in elements[k].Repr && elements[k].Valid())
      && Repr == {this} + Descendants()
    }

    lemma {:induction false} ValidIsAcyclic()
      requires Valid()
      ensures Acyclic()
      decreases Repr
    {
      forall k | k in elements ensures elements[k].Acyclic() {
        elements[k].ValidIsAcyclic();
      }
    }

    constructor (id: string, entityType: string, interactable: bool, dynamic: bool)
      ensures Valid() && Acyclic() && Repr == {this}
      ensures this.id == id && this.entityType == entityType
      ensures this.interactable == interactable && this.dynamic == dynamic
      ensures timestamp == -1 && position == None && extent == None && velocity == None
      ensures properties == map[] && elements == map[] && previousState == null
    {
      this.id := id;
      this.entityType := entityType;
      this.interactable := interactable;
      this.dynamic := dynamic;
      timestamp := -1;
      position := None;
      extent := None;
      velocity := None;
      properties := map[];
      elements := map[];
      previousState := null;
      Repr := {this};
    }

    /** The compared state of this entity and its children. */
    ghost function State(): EntityState
      requires Acyclic()
      reads Repr
      decreases Repr
    {
      EntityState(position, velocity, extent, properties, map k | k in elements :: elements[k].State())
    }

    /** The early-return comparison of `hasSameState`, read as one boolean expression. */
    function HasSameState(e: WorldEntity): bool
      requires Acyclic() && e.Acyclic()
      reads Repr, e.Repr
      decreases Repr
    {
      Equal(position, e.position) && Equal(velocity, e.velocity)
      && |properties| == |e.properties| && Equal(extent, e.extent)
      && (forall k :: k in properties ==> k in e.properties && properties[k] == e.properties[k])
      && |elements| == |e.elements|
      && (forall k :: k in elements ==> k in e.elements && elements[k].HasSameState(e.elements[k]))
    }

    /** Two entities have the same state exactly when their compared states are equal. */
    lemma HasSameStateIff(e: WorldEntity)
      requires Acyclic() && e.Acyclic()
      ensures HasSameState(e) <==> State() == e.State()
    {
      if HasSameState(e) { SameStateEqual(e); }
      if State() == e.State() { EqualStateSame(e); }
    }

    lemma {:induction false} SameStateEqual(e: WorldEntity)
      requires Acyclic() && e.Acyclic() && HasSameState(e)
      ensures State() == e.State()
      decreases Repr
    {
      var mine := map k | k in elements :: elements[k].State();
      var theirs := map k | k in e.elements :: e.elements[k].State();
      SameSizeSubmap(properties, e.properties);
      SameSizeSubset(elements.Keys, e.elements.Keys);
      forall k | k in elements ensures mine[k] == theirs[k] {
        elements[k].SameStateEqual(e.elements[k]);
      }
      assert mine == theirs;
    }

    lemma {:induction false} EqualStateSame(e: WorldEntity)
      requires Acyclic() && e.Acyclic() && State() == e.State()
      ensures HasSameState(e)
      decreases Repr
    {
      EqualStateParts(e);
      forall k | k in elements ensures elements[k].HasSameState(e.elements[k]) {
        elements[k].EqualStateSame(e.elements[k]);
      }
    }

    /** Equal compared states mean equal fields, equal child keys and equal child states. */
    lemma EqualStateParts(e: WorldEntity)
      requires Acyclic() && e.Acyclic() && State() == e.State()
      ensures position == e.position && velocity == e.velocity && extent == e.extent
      ensures properties == e.properties
      ensures elements.Keys == e.elements.Keys && |elements| == |e.elements|
      ensures forall k :: k in elements ==> elements[k].State() == e.elements[k].State()
    {
      var mine := map k | k in elements :: elements[k].State();
      var theirs := map k | k in e.elements :: e.elements[k].State();
      assert State() == EntityState(position, velocity, extent, properties, mine);
      assert e.State() == EntityState(e.position, e.velocity, e.extent, e.properties, theirs);
      assert mine == theirs;
      assert elements.Keys == e.elements.Keys by {
        assert elements.Keys == mine.Keys;
        assert e.elements.Keys == theirs.Keys;
      }
      assert |elements| == |e.elements| by {
        assert |elements| == |elements.Keys| && |e.elements| == |e.elements.Keys|;
      }
      forall k | k in elements ensures elements[k].State() == e.elements[k].State() {
        assert mine[k] == theirs[k];
      }
    }

    /** Comparing with oneself always finds the same state. */
    lemma SameStateReflexive()
      requires Acyclic()
      ensures HasSameState(this)
    {
      HasSameStateIff(this);
    }

    /**
     * Records `e` as the previous state and clears `e`'s own previous state, so the history
     * is never longer than one; linking an entity to itself leaves it without history.
     */
    method LinkPreviousState(e: WorldEntity?)
      modifies this`previousState, (if e == null then {} else {e})`previousState
      ensures e != this ==> previousState == e
      ensures e == this ==> previousState == null
      ensures e != null ==> e.previousState == null
      ensures previousState != null ==> previousState.previousState == null
    {
      previousState := e;
      if e != null {
        e.previousState := null;
      }
    }

    /** True without a previous state, and otherwise when the state differs from it. */
    function HasChangedState(): (r: bool)
      requires Acyclic() && (previousState != null ==> previousState.Acyclic())
      reads this, Repr, if previousState == null then {} else previousState.Repr
      ensures r <==> previousState == null || previousState.State() != State()
    {
      if previousState == null then true
      else
        HasSameStateIff(previousState);
        !HasSameState(previousState)
    }

    /** Children that every descendant of this entity carries the time stamp `ts`. */
    ghost predicate AllStamped(ts: int)
      requires Acyclic()
      reads Repr
      decreases Repr
    {
      timestamp == ts && forall k :: k in elements ==> elements[k].AllStamped(ts)
    }

    /** Sets the time stamp of this entity and of every descendant, visiting the children in any order. */
    method AssignTimeStamp(ts: int)
      requires Valid()
      modifies Repr`timestamp
      ensures forall o :: o in Repr ==> o.timestamp == ts
      decreases Repr
    {
      timestamp := ts;
      var todo := elements.Keys;
      ghost var done: set<WorldEntity> := {};
      while todo != {}
        invariant todo <= elements.Keys
        invariant Valid()
        invariant timestamp == ts
        invariant forall o :: o in done ==> o.timestamp == ts
        invariant forall k, o :: k in elements && k !in todo && o in elements[k].Repr ==> o in done
        decreases |todo|
      {
        var k :| k in todo;
        var child := elements[k];
        child.AssignTimeStamp(ts);
        done := done + child.Repr;
        todo := todo - {k};
      }
      forall o | o in Repr ensures o.timestamp == ts {
        if o != this {
          assert o in Descendants();
        }
      }
    }

    /** Stamping every object of the footprint stamps this entity and every descendant. */
    lemma {:induction false} StampedFootprint(ts: int)
      requires Acyclic()
      requires forall o :: o in Repr ==> o.timestamp == ts
      ensures AllStamped(ts)
      decreases Repr
    {
      forall k | k in elements ensures elements[k].AllStamped(ts) {
        elements[k].StampedFootprint(ts);
      }
    }

    function GetProperty(name: string): (r: Option<Value>)
      reads this
      ensures r.Some? <==> name in properties
      ensures r.Some? ==> r.value == properties[name]
    {
      if name in properties then Some(properties[name]) else None
    }

    /** False for a missing property, an error for a non-boolean one, otherwise its value. */
    function GetBooleanProperty(name: string): (r: Result<bool, GetterError>)
      reads this
      ensures r == Ok(true) <==> name in properties && properties[name] == Bool(true)
      ensures r == Ok(false) <==> name !in properties || properties[name] == Bool(false)
      ensures r.Err? ==> r.error == NoBooleanProperty(id, name)
    {
      match GetProperty(name)
      case None => Ok(false)
      case Some(v) => if v.Bool? then Ok(v.b) else Err(NoBooleanProperty(id, name))
    }

    /** Null for a missing property, otherwise the value's `toString()`. */
    function GetStringProperty(name: string): (r: Option<string>)
      reads this
      ensures r.None? <==> name !in properties
      ensures name in properties && properties[name].Str? ==> r == Some(properties[name].s)
      ensures name in properties && properties[name].Bool? ==> r == Some(if properties[name].b then "true" else "false")
    {
      match GetProperty(name)
      case None => None
      case Some(v) => Some(ValueToString(v))
    }

    /** The value of an integer property; an error when it is missing or not an integer. */
    function GetIntProperty(name: string): (r: Result<int32, GetterError>)
      reads this
      ensures r.Ok? <==> name in properties && properties[name].Int?
      ensures r.Ok? ==> properties[name] == Int(r.value)
      ensures r.Err? ==> r.error == NoIntegerProperty(id, name)
    {
      match GetProperty(name)
      case Some(Int(i)) => Ok(i)
      case _ => Err(NoIntegerProperty(id, name))
    }

    /** An integer property, negative or not, reads back through its string form. */
    lemma IntPropertyAsString(name: string)
      requires GetIntProperty(name).Ok?
      ensures GetStringProperty(name).Some? && |GetStringProperty(name).value| > 0
      ensures var v, s := GetIntProperty(name).value as int, GetStringProperty(name).value;
        (v >= 0 ==> IsCanonicalDecimal(s) && ParseDigits(s) == v)
        && (v < 0 ==> s[0] == '-' && IsCanonicalDecimal(s[1..]) && ParseDigits(s[1..]) == -v)
    {
    }

    /** An entity is moving when it has a velocity at all, even a zero one. */
    predicate IsMovingEntity()
      reads this
    {
      velocity != None
    }
  }
}
