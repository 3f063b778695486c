/**
  kol/subscription.go: which event a subscription delivers for a change, the
  id matcher of DB.Subscription, and the registry of subscriptions by type
  name and subscription name. Delivery to the subscriber function is a
  parameter (its error result); the goroutine per subscription is not kept.
*/
module KolSubscription {
  import opened KeyCodec
  import opened Wrappers
  import opened KolRecord

  /** Operation, a bit set in a Go int (kol/subscription.go:10, 24-31). */
  type Operation = int

  const Create: Operation := 1
  const Update: Operation := 2
  const Delete: Operation := 4

  /** Create | Update | Delete. */
  const AllOps: Operation := (Create as bv3 | Update as bv3 | Delete as bv3) as int

  /** ops&op == op for a single-bit op: bit log2(op) of ops in two's
      complement, which floor division reads also for negative ops. */
  predicate Follows(ops: Operation, op: Operation)
    requires op == Create || op == Update || op == Delete
  {
    (ops / op) % 2 == 1
  }

  /** AllOps follows each of the three operations, and no other bit is set. */
  lemma AllOpsFollowsEach()
    ensures AllOps == 7
    ensures Follows(AllOps, Create) && Follows(AllOps, Update) && Follows(AllOps, Delete)
  {
  }

  /** Operation.String (kol/subscription.go:12-22): None where Go panics. */
  function OpName(op: Operation): (r: Option<string>)
    ensures r.Some? <==> op == Create || op == Update || op == Delete
  {
    if op == Create then Some("Create")
    else if op == Update then Some("Update")
    else if op == Delete then Some("Delete")
    else None
  }

  /** The three names tell the operations apart. */
  lemma OpNameInjective(p: Operation, q: Operation)
    requires OpName(p).Some? && OpName(p) == OpName(q)
    ensures p == q
  {
  }

  // ---------------------------------------------------------------------------
  // handle
  // ---------------------------------------------------------------------------

  /** What handle does: call the subscriber with an operation and a record,
      nothing, or unsubscribe because the matcher failed. */
  datatype Decision = Deliver(op: Operation, obj: Obj) | Ignore | Drop(err: KolError)

  /** Subscription.handle (kol/subscription.go:96-132) with the subscription's
      ops and matcher, for a change from old to new (None for no record). */
  function HandleSpec(ops: Operation, matcher: Obj -> Result<bool, KolError>, oldObj: Option<Obj>, newObj: Option<Obj>): (d: Decision)
    // the old record is matched first; a failure of either matcher unsubscribes
    ensures d.Drop? <==>
      || (oldObj.Some? && matcher(oldObj.value).Failure?)
      || (newObj.Some? && matcher(newObj.value).Failure? && !(oldObj.Some? && matcher(oldObj.value).Failure?))
    ensures oldObj.Some? && matcher(oldObj.value).Failure? ==> d == Drop(matcher(oldObj.value).error)
    // what is delivered is a record the matcher accepts, under an operation followed
    ensures d.Deliver? ==> d.op == Update || d.op == Delete || d.op == Create
    ensures d.Deliver? ==> Follows(ops, d.op) && matcher(d.obj) == Success(true)
    ensures d.Deliver? ==> (d.op == Delete ==> oldObj == Some(d.obj)) && (d.op != Delete ==> newObj == Some(d.obj))
    // a change with neither side matching is never delivered
    ensures !(oldObj.Some? && matcher(oldObj.value) == Success(true)) && !(newObj.Some? && matcher(newObj.value) == Success(true)) ==> !d.Deliver?
  {
    var om := if oldObj.Some? then matcher(oldObj.value) else Success(false);
    if om.Failure? then Drop(om.error)
    else
      var nm := if newObj.Some? then matcher(newObj.value) else Success(false);
      if nm.Failure? then Drop(nm.error)
      else if om.value && nm.value && Follows(ops, Update) then Deliver(Update, newObj.value)
      else if om.value && Follows(ops, Delete) then Deliver(Delete, oldObj.value)
      else if nm.value && Follows(ops, Create) then Deliver(Create, newObj.value)
      else Ignore
  }

  /** handle delivers only an operation the subscription follows, and only a
      record the matcher accepts: the new one for Update and Create, the old
      one for Delete; Update wins over Delete, and Delete over Create. */
  lemma HandleDelivers(ops: Operation, matcher: Obj -> Result<bool, KolError>, oldObj: Option<Obj>, newObj: Option<Obj>)
    ensures match HandleSpec(ops, matcher, oldObj, newObj)
      case Deliver(op, x) =>
        && (op == Update || op == Delete || op == Create)
        && Follows(ops, op) && matcher(x) == Success(true)
        && (op == Delete ==> oldObj == Some(x) && !(newObj.Some? && matcher(newObj.value) == Success(true) && Follows(ops, Update)))
        && (op == Update ==> newObj == Some(x) && oldObj.Some? && matcher(oldObj.value) == Success(true))
        && (op == Create ==> newObj == Some(x) && !(oldObj.Some? && matcher(oldObj.value) == Success(true) && (Follows(ops, Update) || Follows(ops, Delete))))
      case Ignore =>
        && !(oldObj.Some? && matcher(oldObj.value) == Success(true) && (Follows(ops, Delete) || (newObj.Some? && matcher(newObj.value) == Success(true) && Follows(ops, Update))))
        && !(newObj.Some? && matcher(newObj.value) == Success(true) && Follows(ops, Create))
      case Drop(e) =>
        (oldObj.Some? && matcher(oldObj.value) == Failure(e)) || (newObj.Some? && matcher(newObj.value) == Failure(e))
  {
  }

  /** When the matcher gives an answer, handle ignores a change exactly when no
      operation it follows applies. */
  lemma HandleIgnores(ops: Operation, matcher: Obj -> Result<bool, KolError>, oldObj: Option<Obj>, newObj: Option<Obj>)
    requires oldObj.Some? ==> matcher(oldObj.value).Success?
    requires newObj.Some? ==> matcher(newObj.value).Success?
    ensures HandleSpec(ops, matcher, oldObj, newObj).Ignore? <==>
      var om := oldObj.Some? && matcher(oldObj.value).value;
      var nm := newObj.Some? && matcher(newObj.value).value;
      !(om && nm && Follows(ops, Update)) && !(om && Follows(ops, Delete)) && !(nm && Follows(ops, Create))
  {
  }

  // ---------------------------------------------------------------------------
  // The id matcher of DB.Subscription
  // ---------------------------------------------------------------------------

  /** A subscription as DB.Subscription makes it: its name, ops, and the type
      and a copy of the Id of the record it follows. */
  datatype Sub = Sub(name: Bytes, typeName: Bytes, ops: Operation, wantedId: Bytes)

  /** DB.Subscription (kol/subscription.go:154-181): identify fails for a
      record without a []byte Id; a nil Id is copied as empty. */
  function SubscriptionOf(name: Bytes, o: Obj, ops: Operation): (r: Result<Sub, KolError>)
    ensures r.Success? <==> IdOf(o).Success?
    ensures r.Success? ==> r.value.name == name && r.value.typeName == o.typeName && r.value.ops == ops &&
                           r.value.wantedId == IdOf(o).value.GetOr([])
  {
    match IdOf(o)
    case Failure(e) => Failure(e)
    case Success(id) => Success(Sub(name, o.typeName, ops, id.GetOr([])))
  }

  /** The matcher of kol/subscription.go:166-175. */
  function IdMatch(s: Sub, typeName: Bytes, o: Obj): (r: Result<bool, KolError>)
    ensures typeName != s.typeName ==> r == Success(false)
    ensures r.Failure? <==> typeName == s.typeName && IdOf(o).Failure?
    ensures r == Success(true) <==> typeName == s.typeName && IdOf(o).Success? && IdOf(o).value.GetOr([]) == s.wantedId
  {
    if typeName != s.typeName then Success(false)
    else match IdValue(o)
      case Failure(e) => Failure(e)
      case Success(v) => Success(v.Bytes() == s.wantedId)
  }

  /** The id matcher accepts exactly the records of the subscribed type whose
      Id holds the copied bytes. */
  lemma IdMatchMeaning(s: Sub, typeName: Bytes, o: Obj)
    requires IdOf(o).Success?
    ensures IdMatch(s, typeName, o) == Success(typeName == s.typeName && IdOf(o).value.GetOr([]) == s.wantedId)
  {
  }

  /** The events of an id subscription to every operation on one record: its
      deletion, its creation and its update are delivered as such, and a
      change of a record with another id is ignored. */
  lemma IdSubscriptionEvents(name: Bytes, x: Obj, y: Obj, z: Obj)
    requires IdOf(x).Success? && IdOf(x).value.Some?
    requires y.typeName == x.typeName && IdOf(y) == IdOf(x)
    requires z.typeName == x.typeName && IdOf(z).Success? && IdOf(z).value.GetOr([]) != IdOf(x).value.value
    ensures var s := SubscriptionOf(name, x, AllOps).value;
      var m := (o: Obj) => IdMatch(s, x.typeName, o);
      && HandleSpec(AllOps, m, Some(x), None) == Deliver(Delete, x)
      && HandleSpec(AllOps, m, None, Some(y)) == Deliver(Create, y)
      && HandleSpec(AllOps, m, Some(x), Some(y)) == Deliver(Update, y)
      && HandleSpec(AllOps, m, None, Some(z)) == Ignore
  {
    AllOpsFollowsEach();
  }

  // ---------------------------------------------------------------------------
  // The registry
  // ---------------------------------------------------------------------------

  type Registry = map<Bytes, map<Bytes, Sub>>

  /** The registry after Subscribe (kol/subscription.go:66-76). */
  function Subscribed(m: Registry, s: Sub): Registry {
    m[s.typeName := (if s.typeName in m then m[s.typeName] else map[])[s.name := s]]
  }

  /** The registry after DB.Unsubscribe (kol/subscription.go:137-143). */
  function Unsubscribed(m: Registry, name: Bytes): Registry {
    map t | t in m :: m[t] - {name}
  }

  /** Subscribe files s under its type and name and changes nothing else. */
  lemma SubscribeFiles(m: Registry, s: Sub)
    ensures s.typeName in Subscribed(m, s) && Subscribed(m, s)[s.typeName][s.name] == s
    ensures Subscribed(m, s).Keys == m.Keys + {s.typeName}
    ensures forall t, n :: t in m && n in m[t] && (t, n) != (s.typeName, s.name) ==>
      t in Subscribed(m, s) && n in Subscribed(m, s)[t] && Subscribed(m, s)[t][n] == m[t][n]
  {
  }

  /** Unsubscribe removes the name under every type and keeps every other
      entry; after Subscribe it leaves what unsubscribing before would have,
      apart from an empty map for a type that had none. */
  lemma UnsubscribeRemoves(m: Registry, s: Sub)
    ensures Unsubscribed(m, s.name).Keys == m.Keys
    ensures forall t :: t in m ==> s.name !in Unsubscribed(m, s.name)[t]
    ensures forall t, n :: t in m && n in m[t] && n != s.name ==> Unsubscribed(m, s.name)[t][n] == m[t][n]
    ensures var after := Unsubscribed(Subscribed(m, s), s.name);
      && (forall t :: t in m ==> after[t] == Unsubscribed(m, s.name)[t])
      && (s.typeName !in m ==> after[s.typeName] == map[])
  {
    var after := Unsubscribed(Subscribed(m, s), s.name);
    if s.typeName !in m {
      assert after[s.typeName] == map[s.name := s] - {s.name};
      assert after[s.typeName] == map[];
    }
  }

  /** DB.subscriptions with the operations that change it. */
  class Subscriptions {
    var registry: Registry

    constructor ()
      ensures registry == map[]
    {
      registry := map[];
    }

    /** Subscription.Subscribe (kol/subscription.go:66-76). */
    method Subscribe(s: Sub)
      modifies this
      ensures registry == Subscribed(old(registry), s)
    {
      var typeSubs: map<Bytes, Sub>;
      if s.typeName in registry {
        typeSubs := registry[s.typeName];
      } else {
        typeSubs := map[];
        registry := registry[s.typeName := typeSubs];
      }
      registry := registry[s.typeName := typeSubs[s.name := s]];
    }

    /** DB.Unsubscribe (kol/subscription.go:137-143): one type at a time. */
    method Unsubscribe(name: Bytes)
      modifies this
      ensures registry == Unsubscribed(old(registry), name)
    {
      var todo := registry.Keys;
      while todo != {}
        invariant todo <= registry.Keys && registry.Keys == old(registry).Keys
        invariant forall t :: t in registry ==> registry[t] == if t in todo then old(registry)[t] else old(registry)[t] - {name}
        decreases todo
      {
        var t :| t in todo;
        registry := registry[t := registry[t] - {name}];
        todo := todo - {t};
      }
      assert registry == Unsubscribed(old(registry), name);
    }

    /** Subscription.handle (kol/subscription.go:88-132) for an id
        subscription: a matcher failure unsubscribes, and so does an error the
        subscriber returns for the delivered event. */
    method Handle(s: Sub, typeName: Bytes, oldObj: Option<Obj>, newObj: Option<Obj>, subscriber: (Obj, Operation) -> Option<KolError>)
      returns (d: Decision)
      modifies this
      ensures d == HandleSpec(s.ops, (o: Obj) => IdMatch(s, typeName, o), oldObj, newObj)
      ensures registry ==
        if d.Drop? || (d.Deliver? && subscriber(d.obj, d.op).Some?) then Unsubscribed(old(registry), s.name)
        else old(registry)
    {
      d := HandleSpec(s.ops, (o: Obj) => IdMatch(s, typeName, o), oldObj, newObj);
      if d.Drop? {
        Unsubscribe(s.name);
      } else if d.Deliver? {
        var err := subscriber(d.obj, d.op);
        if err.Some? {
          Unsubscribe(s.name);
        }
      }
    }
  }
}
