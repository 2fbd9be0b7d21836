/** The record of when a service last ran for a user: a map from a service
    and user key to a time (milliseconds). The user may be null. */
module ServiceUserRunState {
  import opened Wrappers
  import JavaText

  /** `ServiceUserKey`; `None` is a null user. */
  datatype Key = Key(serviceName: string, user: Option<string>)

  /** `ServiceUserKey.equals`: equal service names, both users null or both
      non-null and equal. */
  predicate KeyEquals(a: Key, b: Key) {
    if a.serviceName != b.serviceName then false
    else if a.user.None? != b.user.None? then false
    else if a.user.Some? && a.user.value != b.user.value then false
    else true
  }

  /** The key equality is value equality: a null user equals only a null
      user, which is what lets the model key its map by values. */
  lemma KeyEqualsMeans(a: Key, b: Key)
    ensures KeyEquals(a, b) <==> a == b
  {
  }

  /** `ServiceUserKey.hashCode`. */
  function KeyHash(k: Key): (r: int)
    ensures -JavaText.TWO_31 <= r < JavaText.TWO_31
  {
    var h := JavaText.ToInt32(31 * 1 + JavaText.StringHash(k.serviceName));
    JavaText.ToInt32(31 * h + (if k.user.None? then 0 else JavaText.StringHash(k.user.value)))
  }

  /** `isServiceRunSince` on the map: the key has a time at or after `time`. */
  predicate RunSince(runTimes: map<Key, int>, serviceName: string, user: Option<string>, time: int) {
    var k := Key(serviceName, user);
    k in runTimes && runTimes[k] >= time
  }

  /** Nothing has run for a key that was never set. */
  lemma UnsetNotRun(runTimes: map<Key, int>, serviceName: string, user: Option<string>, time: int)
    requires Key(serviceName, user) !in runTimes
    ensures !RunSince(runTimes, serviceName, user, time)
  {
  }

  /** After setting a time the service has run since exactly the times at or
      before it; a later set overwrites; other keys are unaffected. */
  lemma SetThenSince(runTimes: map<Key, int>, serviceName: string, user: Option<string>, t: int,
                     other: Key, t': int, t2: int)
    ensures RunSince(runTimes[Key(serviceName, user) := t], serviceName, user, t') <==> t >= t'
    ensures runTimes[Key(serviceName, user) := t][Key(serviceName, user) := t2] ==
            runTimes[Key(serviceName, user) := t2]
    ensures other != Key(serviceName, user) ==>
              (RunSince(runTimes[Key(serviceName, user) := t], other.serviceName, other.user, t') <==>
               RunSince(runTimes, other.serviceName, other.user, t'))
  {
  }

  /** A null user and a named user are different keys. */
  lemma NullUserSeparate(runTimes: map<Key, int>, serviceName: string, user: string, t: int, t': int)
    ensures RunSince(runTimes[Key(serviceName, None) := t], serviceName, Some(user), t') <==>
            RunSince(runTimes, serviceName, Some(user), t')
  {
  }

  /** `ServiceUserRunState`. */
  class RunState {
    var runTimes: map<Key, int>

    constructor ()
      ensures runTimes == map[]
    {
      runTimes := map[];
    }

    method SetServiceRunTime(serviceName: string, user: Option<string>, time: int)
      modifies this
      ensures runTimes == old(runTimes)[Key(serviceName, user) := time]
    {
      runTimes := runTimes[Key(serviceName, user) := time];
    }

    method IsServiceRunSince(serviceName: string, user: Option<string>, time: int) returns (r: bool)
      ensures r == RunSince(runTimes, serviceName, user, time)
    {
      var k := Key(serviceName, user);
      if k !in runTimes {
        return false;
      }
      var lastRun := runTimes[k];
      return !(lastRun < time);
    }
  }
}
