/** The tables of an AllJoyn `InterfaceDescription`
    (alljoyn_core/src/InterfaceDescription.cc): its members, its
    properties and its annotations, each a `std::map` keyed by name into
    which the `Add*` operations insert only what is not there yet. A
    `const char*` that may be null is an `Option<string>`. The standard
    annotation and interface names are those of the D-Bus specification
    and of AllJoyn; AllJoynStd.h, where the source takes them from, is not
    part of this model. */
module InterfaceDesc {
  import opened CanFrame

  /** The status codes the operations return. */
  datatype Status =
    | Ok
    | InterfaceActivated
    | MemberAlreadyExists
    | PropertyAlreadyExists
    | NoSuchMember
    | NoSuchProperty
    | AnnotationAlreadyExists
    | InvalidSignalEmissionType

  /** `AllJoynMessageType`. */
  datatype MessageType = Invalid | MethodCall | MethodReturn | Error | Signal

  /** The `MEMBER_ANNOTATE_*` bits of a member's `annotation` byte. */
  datatype MemberFlag = NoReply | Deprecated | Sessioncast | Sessionless | Unicast | GlobalBroadcast

  /** The `PROP_ANNOTATE_*` bits of a property's `annotation` byte. */
  datatype PropertyFlag = EmitChangedSignal | EmitChangedSignalConst | EmitChangedSignalInvalidates

  /** `InterfaceSecurityPolicy`. */
  datatype SecurityPolicy = Inherit | Required | Off

  const AnnotateDeprecated: string := "org.freedesktop.DBus.Deprecated"
  const AnnotateNoReply: string := "org.freedesktop.DBus.Method.NoReply"
  const AnnotateEmitsChanged: string := "org.freedesktop.DBus.Property.EmitsChangedSignal"
  const AnnotateSecure: string := "org.alljoyn.Bus.Secure"

  /** The interfaces that never get the secure annotation. */
  const StandardInterfaces: set<string> :=
    {"org.freedesktop.DBus.Introspectable", "org.freedesktop.DBus.Peer", "org.freedesktop.DBus.Properties"}

  /** The six type annotations that make a property cacheable. */
  const TypeAnnotations: set<string> :=
    {"org.alljoyn.Bus.Type.Min", "org.alljoyn.Bus.Type.Max", "org.alljoyn.Bus.Type.Units",
     "org.alljoyn.Bus.Type.Default", "org.alljoyn.Bus.Type.Reference", "org.alljoyn.Bus.Type.DisplayHint"}

  /** `InterfaceDescription::Member`. */
  datatype Member = Member(
    memberType: MessageType,
    name: string,
    signature: string,
    returnSignature: string,
    argNames: string,
    annotations: map<string, string>,
    accessPerms: string,
    description: string,
    argumentDescriptions: map<string, string>,
    isSessioncastSignal: bool,
    isSessionlessSignal: bool,
    isUnicastSignal: bool,
    isGlobalBroadcastSignal: bool,
    argumentAnnotations: map<(string, string), string>)

  /** `uint8_t`: the access flags of a property. */
  type byte = x: int | 0 <= x < 256

  /** `InterfaceDescription::Property`. */
  datatype Property = Property(
    name: string,
    signature: string,
    access: byte,
    annotations: map<string, string>,
    description: string,
    cacheable: bool)

  /** A null string argument is stored as the empty string. */
  function OrEmpty(s: Option<string>): string
  {
    if s.Some? then s.value else ""
  }

  // ---------------------------------------------------------------------
  // Insert-if-absent
  // ---------------------------------------------------------------------

  /** `std::map::insert`: the entry is added only when the key is new. */
  function Insert<K, V>(m: map<K, V>, k: K, v: V): (r: map<K, V>)
    ensures k in r && r.Keys == m.Keys + {k}
    ensures k in m ==> r == m
    ensures k !in m ==> r[k] == v && forall j :: j in m ==> r[j] == m[j]
  {
    if k in m then m else m[k := v]
  }

  /** The status of the annotation adders: the insert succeeded, or the
      key was there already with the very same value. */
  function InsertStatus<K>(m: map<K, string>, k: K, v: string): Status
  {
    if k !in m || m[k] == v then Ok else AnnotationAlreadyExists
  }

  /** Adding the same annotation twice is the same as adding it once, and
      the second time succeeds too. */
  lemma InsertIdempotent<K>(m: map<K, string>, k: K, v: string)
    requires InsertStatus(m, k, v) == Ok
    ensures Insert(Insert(m, k, v), k, v) == Insert(m, k, v)
    ensures InsertStatus(Insert(m, k, v), k, v) == Ok
    ensures Insert(m, k, v)[k] == v
  {
  }

  /** An annotation with another value than the one already there is
      refused, and the old value stays. */
  lemma InsertConflict<K>(m: map<K, string>, k: K, v: string)
    requires k in m && m[k] != v
    ensures InsertStatus(m, k, v) == AnnotationAlreadyExists
    ensures Insert(m, k, v) == m && Insert(m, k, v)[k] != v
  {
  }

  /** `AddArgAnnotation`'s status as written: when the insert fails it
      compares the key found with the key looked up, which are the same,
      so the value is never compared. */
  function ArgInsertStatusAsWritten(m: map<(string, string), string>, arg: string, name: string, value: string): Status
  {
    var key := (arg, name);
    if key !in m then Ok
    else
      var found := key;
      if found.0 == arg && found.1 == name then Ok else AnnotationAlreadyExists
  }

  /** As written, `AddArgAnnotation` reports success for every argument
      annotation, whatever value was there before. */
  lemma ArgInsertAlwaysOk(m: map<(string, string), string>, arg: string, name: string, value: string)
    ensures ArgInsertStatusAsWritten(m, arg, name, value) == Ok
  {
  }

  /** An argument annotation `"a"` already there and a new value `"b"`:
      as written the call succeeds without storing `"b"`; the status the
      other adders give is `AnnotationAlreadyExists`. */
  lemma ArgAnnotationConflictAccepted()
    ensures var m := map[("x", "n") := "a"];
      ArgInsertStatusAsWritten(m, "x", "n", "b") == Ok &&
      Insert(m, ("x", "n"), "b")[("x", "n")] == "a" &&
      InsertStatus(m, ("x", "n"), "b") == AnnotationAlreadyExists
  {
  }

  // ---------------------------------------------------------------------
  // Members and properties as the constructors build them
  // ---------------------------------------------------------------------

  /** `Member::Member`: null strings become empty, the deprecated and
      no-reply bits become annotations with value `"true"`, and the four
      signal bits become the signal flags. */
  function NewMember(memberType: MessageType, name: string, signature: Option<string>,
                     returnSignature: Option<string>, argNames: Option<string>,
                     flags: set<MemberFlag>, accessPerms: Option<string>): (m: Member)
    ensures m.memberType == memberType && m.name == name
    ensures m.signature == OrEmpty(signature) && m.returnSignature == OrEmpty(returnSignature)
    ensures m.annotations.Keys <= {AnnotateDeprecated, AnnotateNoReply}
    ensures AnnotateDeprecated in m.annotations <==> Deprecated in flags
    ensures AnnotateNoReply in m.annotations <==> NoReply in flags
    ensures forall k :: k in m.annotations ==> m.annotations[k] == "true"
    ensures m.isSessioncastSignal == (Sessioncast in flags) && m.isSessionlessSignal == (Sessionless in flags)
    ensures m.isUnicastSignal == (Unicast in flags) && m.isGlobalBroadcastSignal == (GlobalBroadcast in flags)
    ensures m.description == "" && m.argumentDescriptions == map[] && m.argumentAnnotations == map[]
  {
    var a0: map<string, string> := map[];
    var a1 := if Deprecated in flags then a0[AnnotateDeprecated := "true"] else a0;
    var a2 := if NoReply in flags then a1[AnnotateNoReply := "true"] else a1;
    Member(memberType, name, OrEmpty(signature), OrEmpty(returnSignature), OrEmpty(argNames), a2,
           OrEmpty(accessPerms), "", map[], Sessioncast in flags, Sessionless in flags,
           Unicast in flags, GlobalBroadcast in flags, map[])
  }

  /** `Property::Property` without annotation bits: not cacheable and no
      annotations. */
  function PlainProperty(name: string, signature: Option<string>, access: byte): (p: Property)
    ensures p.name == name && p.signature == OrEmpty(signature) && p.access == access
    ensures p.annotations == map[] && p.description == "" && !p.cacheable
  {
    Property(name, OrEmpty(signature), access, map[], "", false)
  }

  /** One of the emits-changed bits is set. */
  predicate EmitsChangedFlag(flags: set<PropertyFlag>)
  {
    EmitChangedSignal in flags || EmitChangedSignalConst in flags || EmitChangedSignalInvalidates in flags
  }

  /** `Property::Property` with annotation bits: each emits-changed bit
      sets the emits-changed annotation, a later bit overwriting an
      earlier one (`"true"`, then `"const"`, then `"invalidates"`), and
      makes the property cacheable. */
  function NewProperty(name: string, signature: Option<string>, access: byte, flags: set<PropertyFlag>): (p: Property)
    ensures p.name == name && p.signature == OrEmpty(signature) && p.access == access
    ensures p.cacheable <==> EmitsChangedFlag(flags)
    ensures p.annotations.Keys == if EmitsChangedFlag(flags) then {AnnotateEmitsChanged} else {}
    ensures EmitChangedSignalInvalidates in flags ==> p.annotations[AnnotateEmitsChanged] == "invalidates"
    ensures EmitChangedSignalConst in flags && EmitChangedSignalInvalidates !in flags ==>
      p.annotations[AnnotateEmitsChanged] == "const"
    ensures flags == {EmitChangedSignal} ==> p.annotations[AnnotateEmitsChanged] == "true"
  {
    var a0: map<string, string> := map[];
    var a1 := if EmitChangedSignal in flags then a0[AnnotateEmitsChanged := "true"] else a0;
    var a2 := if EmitChangedSignalConst in flags then a1[AnnotateEmitsChanged := "const"] else a1;
    var a3 := if EmitChangedSignalInvalidates in flags then a2[AnnotateEmitsChanged := "invalidates"] else a2;
    Property(name, OrEmpty(signature), access, a3, "", EmitsChangedFlag(flags))
  }

  /** Whether `AddPropertyAnnotation` makes the property cacheable once
      the annotation is accepted. */
  predicate MakesCacheable(annotationName: string, value: string)
  {
    (annotationName == AnnotateEmitsChanged && value != "false") || annotationName in TypeAnnotations
  }

  // ---------------------------------------------------------------------
  // Listing a table
  // ---------------------------------------------------------------------

  function Min(a: nat, b: nat): nat
  {
    if a < b then a else b
  }

  /** `order` is the order a `std::map` walks the keys of `m` in: every
      key once. */
  predicate Lists<V>(m: map<string, V>, order: seq<string>)
  {
    |order| == |m| && (forall k :: k in m ==> k in order) &&
    (forall i :: 0 <= i < |order| ==> order[i] in m)
  }

  /** The listing loop of `GetAnnotationsWithValues`, `GetMembers` and
      `GetProperties`. Without output arrays (`size` is `None`) the count
      is the size of the table and nothing is written; with arrays of
      `size` entries, the first `min(count, size)` entries in map order
      are written and that many are reported. */
  method ListEntries<V>(m: map<string, V>, order: seq<string>, size: Option<nat>)
    returns (count: nat, keys: seq<string>, values: seq<V>)
    requires Lists(m, order)
    ensures size.None? ==> count == |m| && keys == [] && values == []
    ensures size.Some? ==> count == Min(|m|, size.value) && keys == order[..count]
    ensures size.Some? ==> |values| == count && forall i :: 0 <= i < count ==> values[i] == m[keys[i]]
  {
    count := |m|;
    keys, values := [], [];
    if size.Some? {
      count := Min(count, size.value);
      var i := 0;
      while i < count
        invariant i <= count <= |order|
        invariant keys == order[..i] && |values| == i
        invariant forall j :: 0 <= j < i ==> values[j] == m[keys[j]]
      {
        keys := keys + [order[i]];
        values := values + [m[order[i]]];
        i := i + 1;
      }
    }
  }

  /** `GetAnnotationsWithValues`: the names and values of an annotation
      table. */
  method GetAnnotationsWithValues(annotations: map<string, string>, order: seq<string>, size: Option<nat>)
    returns (count: nat, names: seq<string>, values: seq<string>)
    requires Lists(annotations, order)
    ensures size.None? ==> count == |annotations| && names == [] && values == []
    ensures size.Some? ==> count == Min(|annotations|, size.value) && names == order[..count]
    ensures size.Some? ==> |values| == count && forall i :: 0 <= i < count ==> values[i] == annotations[names[i]]
  {
    count, names, values := ListEntries(annotations, order, size);
  }

  // ---------------------------------------------------------------------
  // The interface
  // ---------------------------------------------------------------------

  class InterfaceDescription {
    var name: string
    var isActivated: bool
    var members: map<string, Member>
    var properties: map<string, Property>
    var annotations: map<string, string>
    var hasDescription: bool

    /** `InterfaceDescription(name, secPolicy)`: empty tables; a policy
        other than inherit puts the secure annotation (`"true"` when
        required, `"off"` otherwise) on every interface but the three
        standard D-Bus ones. */
    constructor(name: string, secPolicy: SecurityPolicy)
      ensures this.name == name && !isActivated && !hasDescription
      ensures members == map[] && properties == map[]
      ensures annotations ==
        if secPolicy == Inherit || name in StandardInterfaces then map[]
        else map[AnnotateSecure := if secPolicy == Required then "true" else "off"]
    {
      this.name := name;
      isActivated := false;
      members, properties := map[], map[];
      hasDescription := false;
      if secPolicy != Inherit && name !in StandardInterfaces {
        annotations := map[AnnotateSecure := if secPolicy == Required then "true" else "off"];
      } else {
        annotations := map[];
      }
    }

    /** `Activate`: from now on the tables are frozen. */
    method Activate()
      modifies this
      ensures isActivated
      ensures members == old(members) && properties == old(properties) && annotations == old(annotations)
      ensures name == old(name) && hasDescription == old(hasDescription)
    {
      isActivated := true;
    }

    /** `AddMember`: a new name is added with status `Ok`; a name already
        there keeps its member and gives `MemberAlreadyExists`. */
    method AddMember(memberType: MessageType, memberName: string, inSig: Option<string>, outSig: Option<string>,
                     argNames: Option<string>, flags: set<MemberFlag>, accessPerms: Option<string>)
      returns (status: Status)
      modifies this
      ensures old(isActivated) ==> status == InterfaceActivated && members == old(members)
      ensures !old(isActivated) ==> (status == Ok <==> memberName !in old(members))
      ensures !old(isActivated) ==> status in {Ok, MemberAlreadyExists}
      ensures !old(isActivated) ==>
        members == Insert(old(members), memberName, NewMember(memberType, memberName, inSig, outSig, argNames, flags, accessPerms))
      ensures status == Ok ==> HasMember(memberName, Some(OrEmpty(inSig)), Some(OrEmpty(outSig)))
      ensures isActivated == old(isActivated) && properties == old(properties) && annotations == old(annotations)
      ensures name == old(name) && hasDescription == old(hasDescription)
    {
      if isActivated {
        return InterfaceActivated;
      }
      var member := NewMember(memberType, memberName, inSig, outSig, argNames, flags, accessPerms);
      status := if memberName in members then MemberAlreadyExists else Ok;
      members := Insert(members, memberName, member);
    }

    /** `AddMemberAnnotation`. */
    method AddMemberAnnotation(member: string, annotationName: string, value: string) returns (status: Status)
      modifies this
      ensures old(isActivated) ==> status == InterfaceActivated && members == old(members)
      ensures !old(isActivated) && member !in old(members) ==> status == NoSuchMember && members == old(members)
      ensures !old(isActivated) && member in old(members) ==>
        status == InsertStatus(old(members)[member].annotations, annotationName, value) &&
        members == old(members)[member := old(members)[member].(annotations :=
          Insert(old(members)[member].annotations, annotationName, value))]
      ensures isActivated == old(isActivated) && properties == old(properties) && annotations == old(annotations)
      ensures name == old(name) && hasDescription == old(hasDescription)
    {
      if isActivated {
        return InterfaceActivated;
      }
      if member !in members {
        return NoSuchMember;
      }
      var m := members[member];
      status := InsertStatus(m.annotations, annotationName, value);
      members := members[member := m.(annotations := Insert(m.annotations, annotationName, value))];
    }

    /** `GetMemberAnnotation`. */
    function GetMemberAnnotation(member: string, annotationName: string): (r: Option<string>)
      reads this
      ensures r.Some? <==> member in members && annotationName in members[member].annotations
      ensures r.Some? ==> r.value == members[member].annotations[annotationName]
    {
      if member in members && annotationName in members[member].annotations
      then Some(members[member].annotations[annotationName]) else None
    }

    /** `AddProperty`: a new name is added, not cacheable, with status
        `Ok`; a name already there keeps its property and gives
        `PropertyAlreadyExists`. */
    method AddProperty(propertyName: string, signature: Option<string>, access: byte) returns (status: Status)
      modifies this
      ensures old(isActivated) ==> status == InterfaceActivated && properties == old(properties)
      ensures !old(isActivated) ==> (status == Ok <==> propertyName !in old(properties))
      ensures !old(isActivated) ==> status in {Ok, PropertyAlreadyExists}
      ensures !old(isActivated) ==> properties == Insert(old(properties), propertyName, PlainProperty(propertyName, signature, access))
      ensures isActivated == old(isActivated) && members == old(members) && annotations == old(annotations)
      ensures name == old(name) && hasDescription == old(hasDescription)
    {
      if isActivated {
        return InterfaceActivated;
      }
      status := if propertyName in properties then PropertyAlreadyExists else Ok;
      properties := Insert(properties, propertyName, PlainProperty(propertyName, signature, access));
    }

    /** `AddPropertyAnnotation`: as the other adders, and an accepted
        annotation that `MakesCacheable` marks the property cacheable. */
    method AddPropertyAnnotation(propName: string, annotationName: string, value: string) returns (status: Status)
      modifies this
      ensures old(isActivated) ==> status == InterfaceActivated && properties == old(properties)
      ensures !old(isActivated) && propName !in old(properties) ==> status == NoSuchProperty && properties == old(properties)
      ensures !old(isActivated) && propName in old(properties) ==>
        var p := old(properties)[propName];
        status == InsertStatus(p.annotations, annotationName, value) &&
        properties == old(properties)[propName := p.(
          annotations := Insert(p.annotations, annotationName, value),
          cacheable := p.cacheable || (status == Ok && MakesCacheable(annotationName, value)))]
      ensures isActivated == old(isActivated) && members == old(members) && annotations == old(annotations)
      ensures name == old(name) && hasDescription == old(hasDescription)
    {
      if isActivated {
        return InterfaceActivated;
      }
      if propName !in properties {
        return NoSuchProperty;
      }
      var p := properties[propName];
      status := InsertStatus(p.annotations, annotationName, value);
      p := p.(annotations := Insert(p.annotations, annotationName, value));
      if status == Ok && MakesCacheable(annotationName, value) {
        p := p.(cacheable := true);
      }
      properties := properties[propName := p];
    }

    /** `GetPropertyAnnotation`. */
    function GetPropertyAnnotation(propName: string, annotationName: string): (r: Option<string>)
      reads this
      ensures r.Some? <==> propName in properties && annotationName in properties[propName].annotations
      ensures r.Some? ==> r.value == properties[propName].annotations[annotationName]
    {
      if propName in properties && annotationName in properties[propName].annotations
      then Some(properties[propName].annotations[annotationName]) else None
    }

    /** `AddAnnotation`, on the interface itself. */
    method AddAnnotation(annotationName: string, value: string) returns (status: Status)
      modifies this
      ensures old(isActivated) ==> status == InterfaceActivated && annotations == old(annotations)
      ensures !old(isActivated) ==>
        status == InsertStatus(old(annotations), annotationName, value) &&
        annotations == Insert(old(annotations), annotationName, value)
      ensures status == Ok ==> GetAnnotation(annotationName) == Some(value)
      ensures isActivated == old(isActivated) && members == old(members) && properties == old(properties)
      ensures name == old(name) && hasDescription == old(hasDescription)
    {
      if isActivated {
        return InterfaceActivated;
      }
      status := InsertStatus(annotations, annotationName, value);
      annotations := Insert(annotations, annotationName, value);
    }

    /** `GetAnnotation`. */
    function GetAnnotation(annotationName: string): (r: Option<string>)
      reads this
      ensures r.Some? <==> annotationName in annotations
      ensures r.Some? ==> r.value == annotations[annotationName]
    {
      if annotationName in annotations then Some(annotations[annotationName]) else None
    }

    /** `AddArgAnnotation`, with the status the other adders give: an
        argument annotation already there with another value is refused
        and kept. */
    method AddArgAnnotation(member: string, arg: string, annotationName: string, value: string) returns (status: Status)
      modifies this
      ensures old(isActivated) ==> status == InterfaceActivated && members == old(members)
      ensures !old(isActivated) && member !in old(members) ==> status == NoSuchMember && members == old(members)
      ensures !old(isActivated) && member in old(members) ==>
        var m := old(members)[member];
        (status == Ok <==> (arg, annotationName) !in m.argumentAnnotations ||
                           m.argumentAnnotations[(arg, annotationName)] == value) &&
        members == old(members)[member := m.(argumentAnnotations :=
          Insert(m.argumentAnnotations, (arg, annotationName), value))]
      ensures isActivated == old(isActivated) && properties == old(properties) && annotations == old(annotations)
      ensures name == old(name) && hasDescription == old(hasDescription)
    {
      if isActivated {
        return InterfaceActivated;
      }
      if member !in members {
        return NoSuchMember;
      }
      var m := members[member];
      status := InsertStatus(m.argumentAnnotations, (arg, annotationName), value);
      members := members[member := m.(argumentAnnotations := Insert(m.argumentAnnotations, (arg, annotationName), value))];
    }

    /** `HasMember`: an unknown name is never there; with neither
        signature given the name alone decides; the input signature is
        compared when given, and the output signature only for method
        calls. */
    function HasMember(memberName: string, inSig: Option<string>, outSig: Option<string>): (r: bool)
      reads this
      ensures memberName !in members ==> !r
      ensures memberName in members && inSig.None? && outSig.None? ==> r
      ensures memberName in members && members[memberName].memberType != MethodCall ==>
        (r <==> inSig.None? || members[memberName].signature == inSig.value)
      ensures memberName in members && members[memberName].memberType == MethodCall ==>
        (r <==> (inSig.None? || members[memberName].signature == inSig.value) &&
                (outSig.None? || members[memberName].returnSignature == outSig.value))
    {
      if memberName !in members then false
      else if inSig.None? && outSig.None? then true
      else
        var m := members[memberName];
        (inSig.None? || m.signature == inSig.value) &&
        (outSig.None? || m.memberType != MethodCall || m.returnSignature == outSig.value)
    }

    /** `SetMemberDescription(member, desc)`. */
    method SetMemberDescription(member: string, desc: string) returns (status: Status)
      modifies this
      ensures old(isActivated) ==> status == InterfaceActivated && members == old(members) && hasDescription == old(hasDescription)
      ensures !old(isActivated) && member !in old(members) ==>
        status == NoSuchMember && members == old(members) && hasDescription == old(hasDescription)
      ensures !old(isActivated) && member in old(members) ==>
        status == Ok && hasDescription && members == old(members)[member := old(members)[member].(description := desc)]
      ensures isActivated == old(isActivated) && properties == old(properties) && annotations == old(annotations)
      ensures name == old(name)
    {
      if isActivated {
        return InterfaceActivated;
      }
      if member !in members {
        return NoSuchMember;
      }
      members := members[member := members[member].(description := desc)];
      hasDescription := true;
      status := Ok;
    }

    /** `SetMemberDescription(member, desc, isSessionlessSignal)`: asking
        for a sessionless signal on a member already marked sessioncast,
        unicast or global broadcast (and not sessionless) is refused and
        changes nothing; otherwise the member becomes sessionless when
        asked and takes the description. */
    method SetMemberDescriptionSessionless(member: string, desc: string, isSessionlessSignal: bool) returns (status: Status)
      modifies this
      ensures old(isActivated) ==> status == InterfaceActivated && members == old(members) && hasDescription == old(hasDescription)
      ensures !old(isActivated) && member !in old(members) ==>
        status == NoSuchMember && members == old(members) && hasDescription == old(hasDescription)
      ensures !old(isActivated) && member in old(members) ==>
        var m := old(members)[member];
        var clash := isSessionlessSignal && !m.isSessionlessSignal &&
          (m.isSessioncastSignal || m.isUnicastSignal || m.isGlobalBroadcastSignal);
        (clash ==> status == InvalidSignalEmissionType && members == old(members) && hasDescription == old(hasDescription)) &&
        (!clash ==>
          status == Ok && hasDescription &&
          members == old(members)[member := m.(description := desc,
            isSessionlessSignal := m.isSessionlessSignal || isSessionlessSignal)])
      ensures isActivated == old(isActivated) && properties == old(properties) && annotations == old(annotations)
      ensures name == old(name)
    {
      if isActivated {
        return InterfaceActivated;
      }
      if member !in members {
        return NoSuchMember;
      }
      var m := members[member];
      if isSessionlessSignal && !m.isSessionlessSignal {
        if m.isSessioncastSignal || m.isUnicastSignal || m.isGlobalBroadcastSignal {
          return InvalidSignalEmissionType;
        } else {
          m := m.(isSessionlessSignal := true);
        }
      }
      members := members[member := m.(description := desc)];
      hasDescription := true;
      status := Ok;
    }

    /** Some property is cacheable. */
    predicate SomeCacheable()
      reads this
    {
      exists k :: k in properties && properties[k].cacheable
    }

    /** `HasCacheableProperties`: the walk over the properties that stops
        at the first cacheable one. */
    method HasCacheableProperties() returns (r: bool)
      ensures r <==> SomeCacheable()
    {
      var keys := properties.Keys;
      while keys != {}
        invariant keys <= properties.Keys
        invariant forall k :: k in properties && k !in keys ==> !properties[k].cacheable
        decreases |keys|
      {
        var k :| k in keys;
        if properties[k].cacheable {
          return true;
        }
        keys := keys - {k};
      }
      return false;
    }

    /** `GetMembers`: the count, and with an output array the first
        members in name order. */
    method GetMembers(order: seq<string>, numMembers: Option<nat>) returns (count: nat, result: seq<Member>)
      requires Lists(members, order)
      ensures numMembers.None? ==> count == |members| && result == []
      ensures numMembers.Some? ==> count == Min(|members|, numMembers.value) && |result| == count
      ensures numMembers.Some? ==> forall i :: 0 <= i < count ==> result[i] == members[order[i]]
    {
      var keys;
      count, keys, result := ListEntries(members, order, numMembers);
    }

    /** `GetProperties`: the count, and with an output array the first
        properties in name order. */
    method GetProperties(order: seq<string>, numProps: Option<nat>) returns (count: nat, result: seq<Property>)
      requires Lists(properties, order)
      ensures numProps.None? ==> count == |properties| && result == []
      ensures numProps.Some? ==> count == Min(|properties|, numProps.value) && |result| == count
      ensures numProps.Some? ==> forall i :: 0 <= i < count ==> result[i] == properties[order[i]]
    {
      var keys;
      count, keys, result := ListEntries(properties, order, numProps);
    }

    /** `GetAnnotations`, on the interface itself. */
    method GetAnnotations(order: seq<string>, size: Option<nat>) returns (count: nat, names: seq<string>, values: seq<string>)
      requires Lists(annotations, order)
      ensures size.None? ==> count == |annotations| && names == [] && values == []
      ensures size.Some? ==> count == Min(|annotations|, size.value) && names == order[..count]
      ensures size.Some? ==> |values| == count && forall i :: 0 <= i < count ==> values[i] == annotations[names[i]]
    {
      count, names, values := GetAnnotationsWithValues(annotations, order, size);
    }
  }
}
