/** The pass after decoding: required fields and defaults, in the bodies the
    document wrote. The plan skips bodies below which nothing is annotated. */
module PostDecode {
  import opened Options

  /** A field of a message type: the type of the bodies it holds, if any, its
      annotations, and its oneof unless that is synthetic. */
  datatype Info = Info(
    name: string, body: Option<string>, required: bool, default: Option<string>, oneof: Option<string>)

  /** Message types by name, the well-known ones, and how a default literal of a
      field reads. */
  datatype Types = Types(
    messages: map<string, seq<Info>>,
    wellKnown: set<string>,
    defaultOf: (string, Info) -> Option<Value>)

  datatype Body = Body(message: string, fields: map<string, Value>)
  datatype Value =
    | Scalar(bits: nat)
    | Message(body: Body)
    | Elements(items: seq<Value>)
    | Entries(entries: seq<MapItem>)
  /** A map's value under its key as a path shows it. */
  datatype MapItem = MapItem(key: string, value: Value)

  /** The paths the document mentioned, and the ones it set to null. */
  datatype Presence = Presence(present: set<string>, nulls: set<string>)

  function InfosOf(t: Types, message: string): seq<Info> {
    if message in t.messages then t.messages[message] else []
  }

  /** Descriptors are closed, and fields and their oneofs have distinct names. */
  ghost predicate WellFormed(t: Types) {
    forall m :: m in t.messages ==>
      && (forall i :: 0 <= i < |t.messages[m]| && t.messages[m][i].body.Some? ==> t.messages[m][i].body.value in t.messages)
      && (forall i, j :: 0 <= i < j < |t.messages[m]| ==> t.messages[m][i].name != t.messages[m][j].name)
  }

  // What the plan decides.

  predicate Annotated(fd: Info) {
    fd.required || fd.default.Some?
  }

  predicate HasAnnotated(t: Types, message: string) {
    exists i :: 0 <= i < |InfosOf(t, message)| && Annotated(InfosOf(t, message)[i])
  }

  /** Bodies of type b stand in a message. */
  predicate Holds(t: Types, message: string, b: string) {
    exists i :: 0 <= i < |InfosOf(t, message)| && InfosOf(t, message)[i].body == Some(b)
  }

  /** A chain of body types from the first to the last, none of them well-known. */
  ghost predicate Chain(t: Types, path: seq<string>) {
    && path != []
    && (forall i :: 0 <= i < |path| ==> path[i] !in t.wellKnown)
    && (forall i :: 0 <= i < |path| - 1 ==> Holds(t, path[i], path[i + 1]))
  }

  /** An annotated field is reachable from the type without passing a well-known
      one. */
  ghost predicate Reaches(t: Types, message: string) {
    exists path :: Chain(t, path) && path[0] == message && HasAnnotated(t, path[|path| - 1])
  }

  ghost predicate Visit(t: Types, fd: Info) {
    fd.body.Some? && Reaches(t, fd.body.value)
  }

  lemma ReachesStep(t: Types, message: string, b: string)
    requires message !in t.wellKnown && Holds(t, message, b) && Reaches(t, b)
    ensures Reaches(t, message)
  {
    var path :| Chain(t, path) && path[0] == b && HasAnnotated(t, path[|path| - 1]);
    var longer := [message] + path;
    assert longer[|longer| - 1] == path[|path| - 1];
    assert forall i :: 0 < i < |longer| ==> longer[i] == path[i - 1];
    assert Chain(t, longer);
  }

  lemma ReachesHere(t: Types, message: string)
    requires message !in t.wellKnown && HasAnnotated(t, message)
    ensures Reaches(t, message)
  {
    assert Chain(t, [message]);
  }

  // The search, with the set of types already seen.

  /** The new types are clean and closed: nothing annotated, and every body type is
      seen or well-known. */
  ghost predicate Clean(t: Types, old_: set<string>, seen: set<string>, except: set<string>) {
    && old_ <= seen
    && forall m :: m in seen && m !in old_ && m !in except ==>
         m !in t.wellKnown && !HasAnnotated(t, m) && forall b :: Holds(t, m, b) ==> b in t.wellKnown || b in seen
  }

  lemma CleanStep(t: Types, old_: set<string>, seen: set<string>, more: set<string>, except: set<string>)
    requires Clean(t, old_, seen, except) && Clean(t, seen, more, {}) && except <= seen
    ensures Clean(t, old_, more, except)
  {
    hide HasAnnotated, Holds;
  }

  /** From a clean set that nothing leaves, nothing annotated is reachable. */
  lemma {:induction false} CleanReachesNothing(t: Types, seen: set<string>, path: seq<string>)
    requires Clean(t, {}, seen, {}) && Chain(t, path) && path[0] in seen
    ensures !HasAnnotated(t, path[|path| - 1])
    decreases |path|
  {
    hide HasAnnotated, Holds;
    if |path| > 1 {
      assert Holds(t, path[0], path[1]);
      assert Chain(t, path[1..]) by {
        var rest := path[1..];
        assert forall i :: 0 <= i < |rest| ==> rest[i] == path[i + 1];
      }
      CleanReachesNothing(t, seen, path[1..]);
    }
  }

  /** has_default_or_required: a depth-first search that a type ends when it is
      well-known or was seen before. */
  method HasDefaultOrRequired(t: Types, message: string, seen: set<string>) returns (found: bool, seen': set<string>)
    requires WellFormed(t) && message in t.messages && seen <= t.messages.Keys
    ensures seen <= seen' <= t.messages.Keys
    ensures found ==> Reaches(t, message)
    ensures !found ==> Clean(t, seen, seen', {}) && (message in t.wellKnown || message in seen')
    decreases |t.messages.Keys - seen|
  {
    if message in t.wellKnown || message in seen {
      return false, seen;
    }
    hide Reaches, HasAnnotated, Holds, Clean;
    seen' := seen + {message};
    StartClean(t, seen, message);
    Smaller(t.messages.Keys, seen, message);
    var infos := InfosOf(t, message);
    var i := 0;
    while i < |infos|
      invariant i <= |infos| && seen + {message} <= seen' <= t.messages.Keys
      invariant Clean(t, seen, seen', {message})
      invariant NoneBefore(t, infos, i, seen')
    {
      var fd := infos[i];
      if fd.required || fd.default.Some? {
        FoundHere(t, message, i);
        return true, seen';
      }
      if fd.body.Some? {
        var below;
        SmallerStill(t.messages.Keys, seen + {message}, seen');
        ghost var before := seen';
        below, seen' := HasDefaultOrRequired(t, fd.body.value, seen');
        if below {
          FoundBelow(t, message, i);
          return true, seen';
        }
        CleanStep(t, seen, before, seen', {message});
      }
      i := i + 1;
    }
    NoneFound(t, seen, seen', message);
    found := false;
  }

  /** The fields before i have no annotation, and their body types are done. */
  ghost predicate NoneBefore(t: Types, infos: seq<Info>, i: nat, seen: set<string>)
    requires i <= |infos|
  {
    forall j :: 0 <= j < i ==>
      !Annotated(infos[j]) && (infos[j].body.Some? ==> infos[j].body.value in t.wellKnown || infos[j].body.value in seen)
  }

  lemma StartClean(t: Types, seen: set<string>, message: string)
    ensures Clean(t, seen, seen + {message}, {message})
  {}

  lemma Smaller(all: set<string>, seen: set<string>, message: string)
    requires message in all && message !in seen
    ensures |all - (seen + {message})| < |all - seen|
  {
    assert all - (seen + {message}) == (all - seen) - {message};
  }

  lemma SmallerStill(all: set<string>, seen: set<string>, more: set<string>)
    requires seen <= more
    ensures |all - more| <= |all - seen|
  {
    var a, b := all - more, all - seen;
    assert a <= b;
    assert b == a + (b - a);
  }

  lemma FoundHere(t: Types, message: string, i: nat)
    requires message !in t.wellKnown && i < |InfosOf(t, message)| && Annotated(InfosOf(t, message)[i])
    ensures Reaches(t, message)
  {
    hide Reaches;
    ReachesHere(t, message);
  }

  lemma FoundBelow(t: Types, message: string, i: nat)
    requires message !in t.wellKnown && i < |InfosOf(t, message)| && InfosOf(t, message)[i].body.Some?
    requires Reaches(t, InfosOf(t, message)[i].body.value)
    ensures Reaches(t, message)
  {
    hide Reaches;
    ReachesStep(t, message, InfosOf(t, message)[i].body.value);
  }

  lemma NoneFound(t: Types, seen: set<string>, seen': set<string>, message: string)
    requires Clean(t, seen, seen', {message}) && message !in t.wellKnown && message in seen'
    requires NoneBefore(t, InfosOf(t, message), |InfosOf(t, message)|, seen')
    ensures Clean(t, seen, seen', {})
  {}

  /** The plan's answer for a field: exactly whether an annotated field is below
      its bodies, on recursive types too. */
  method PlanVisit(t: Types, fd: Info) returns (visit: bool)
    requires WellFormed(t) && (fd.body.Some? ==> fd.body.value in t.messages)
    ensures visit <==> Visit(t, fd)
  {
    if fd.body.None? {
      return false;
    }
    var seen;
    visit, seen := HasDefaultOrRequired(t, fd.body.value, {});
    if !visit {
      NothingBelow(t, fd.body.value, seen);
    }
  }

  lemma NothingBelow(t: Types, message: string, seen: set<string>)
    requires Clean(t, {}, seen, {}) && (message in t.wellKnown || message in seen)
    ensures !Reaches(t, message)
  {
    forall path | Chain(t, path) && path[0] == message
      ensures !HasAnnotated(t, path[|path| - 1])
    {
      CleanReachesNothing(t, seen, path);
    }
  }
}
