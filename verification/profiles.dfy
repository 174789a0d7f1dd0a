/** The social graph of authors/apps/profiles: the asymmetric `follows`
    relation between profiles (models.py), the follow and unfollow endpoints
    that keep the cached `followers` and `following` counters in step with it,
    and the followers listing (views.py). */
module Profiles {
  import opened Wrappers

  /** A row of the `follows` through table: (from_profile, to_profile). The
      table is kept in insertion order. */
  type Edge = (int, int)

  datatype Profile = Profile(username: string, bio: string, image: string, followers: int, following: int)
  {
    /** `__str__`: the owning user's username. */
    function ToString(): (s: string)
      ensures s == username
    {
      username
    }
  }

  predicate DistinctEdges(es: seq<Edge>)
  {
    forall i, j :: 0 <= i < j < |es| ==> es[i] != es[j]
  }

  /** Number of through rows pointing at `p`: the profiles following `p`. */
  function InDegree(es: seq<Edge>, p: int): nat
  {
    if es == [] then 0 else InDegree(es[..|es| - 1], p) + (if es[|es| - 1].1 == p then 1 else 0)
  }

  /** Number of through rows leaving `p`: the profiles `p` follows. */
  function OutDegree(es: seq<Edge>, p: int): nat
  {
    if es == [] then 0 else OutDegree(es[..|es| - 1], p) + (if es[|es| - 1].0 == p then 1 else 0)
  }

  lemma DistinctPrefix(es: seq<Edge>)
    requires es != [] && DistinctEdges(es)
    ensures DistinctEdges(es[..|es| - 1]) && es[|es| - 1] !in es[..|es| - 1]
  {
  }

  lemma DistinctSnoc(es: seq<Edge>, e: Edge)
    requires DistinctEdges(es) && e !in es
    ensures DistinctEdges(es + [e])
  {
  }

  // ---------------------------------------------------------- models.py

  /** `follows.add(profile)`: adds the row unless it is already there. */
  function AddEdge(es: seq<Edge>, follower: int, followee: int): (r: seq<Edge>)
    ensures (follower, followee) in r
    ensures forall e :: e != (follower, followee) ==> (e in r <==> e in es)
    ensures (follower, followee) in es ==> r == es
    ensures DistinctEdges(es) ==> DistinctEdges(r)
  {
    if (follower, followee) in es then es
    else
      assert DistinctEdges(es) ==> DistinctEdges(es + [(follower, followee)]) by {
        if DistinctEdges(es) { DistinctSnoc(es, (follower, followee)); }
      }
      es + [(follower, followee)]
  }

  /** `follows.remove(profile)`: deletes the row if it is there. */
  function RemoveEdge(es: seq<Edge>, follower: int, followee: int): (r: seq<Edge>)
    ensures (follower, followee) !in r
    ensures forall e :: e != (follower, followee) ==> (e in r <==> e in es)
    ensures (follower, followee) !in es ==> r == es
    ensures DistinctEdges(es) ==> DistinctEdges(r)
  {
    if es == [] then []
    else
      var init, last := es[..|es| - 1], es[|es| - 1];
      assert es == init + [last];
      var rest := RemoveEdge(init, follower, followee);
      if last == (follower, followee) then rest
      else
        assert DistinctEdges(es) ==> DistinctEdges(rest + [last]) by {
          if DistinctEdges(es) {
            DistinctPrefix(es);
            DistinctSnoc(rest, last);
          }
        }
        rest + [last]
  }

  /** Following is asymmetric: `a` following `b` says nothing of `b`
      following `a`. */
  lemma FollowIsAsymmetric(es: seq<Edge>, a: int, b: int)
    requires a != b && (b, a) !in es
    ensures (a, b) in AddEdge(es, a, b)
    ensures (b, a) !in AddEdge(es, a, b)
  {
  }

  /** Following twice is following once; unfollowing twice is unfollowing
      once. */
  lemma EdgeUpdatesIdempotent(es: seq<Edge>, a: int, b: int)
    ensures AddEdge(AddEdge(es, a, b), a, b) == AddEdge(es, a, b)
    ensures RemoveEdge(RemoveEdge(es, a, b), a, b) == RemoveEdge(es, a, b)
  {
  }

  /** Unfollowing right after following a profile one did not follow gives
      back the through table exactly. */
  lemma RemoveAfterAdd(es: seq<Edge>, a: int, b: int)
    requires (a, b) !in es
    ensures RemoveEdge(AddEdge(es, a, b), a, b) == es
  {
    var added := es + [(a, b)];
    assert added[..|added| - 1] == es;
  }

  lemma DegreesAppend(es: seq<Edge>, e: Edge, p: int)
    ensures InDegree(es + [e], p) == InDegree(es, p) + (if e.1 == p then 1 else 0)
    ensures OutDegree(es + [e], p) == OutDegree(es, p) + (if e.0 == p then 1 else 0)
  {
    assert (es + [e])[..|es|] == es;
  }

  /** Removing a row that occurs once lowers exactly the degrees of its two
      ends by one. */
  lemma {:induction false} DegreesRemove(es: seq<Edge>, a: int, b: int, p: int)
    requires DistinctEdges(es) && (a, b) in es
    ensures InDegree(RemoveEdge(es, a, b), p) == InDegree(es, p) - (if b == p then 1 else 0)
    ensures OutDegree(RemoveEdge(es, a, b), p) == OutDegree(es, p) - (if a == p then 1 else 0)
  {
    var init, last := es[..|es| - 1], es[|es| - 1];
    assert es == init + [last];
    DistinctPrefix(es);
    if last == (a, b) {
      assert RemoveEdge(init, a, b) == init;
    } else {
      DegreesRemove(init, a, b, p);
      DegreesAppend(RemoveEdge(init, a, b), last, p);
    }
  }

  // ------------------------------------------------------------ counters

  /** Every profile's cached counters equal its in- and out-degree, and no
      profile follows itself. */
  ghost predicate CountersConsistent(profiles: map<int, Profile>, es: seq<Edge>)
  {
    && (forall p :: p in profiles ==>
          profiles[p].followers == InDegree(es, p) && profiles[p].following == OutDegree(es, p))
    && (forall e :: e in es ==> e.0 != e.1)
  }

  /** The counter writes of the follow and unfollow endpoints: the followee
      row is saved with `followers + delta`, then the follower row with
      `following + delta`. Each object was loaded before either save, so
      both writes start from the rows as they were. */
  function Bump(profiles: map<int, Profile>, follower: int, followee: int, delta: int): (r: map<int, Profile>)
    requires follower in profiles && followee in profiles
    ensures r.Keys == profiles.Keys
    ensures follower != followee ==>
      && r[followee] == profiles[followee].(followers := profiles[followee].followers + delta)
      && r[follower] == profiles[follower].(following := profiles[follower].following + delta)
    ensures forall p :: p in profiles && p != follower && p != followee ==> r[p] == profiles[p]
  {
    profiles[followee := profiles[followee].(followers := profiles[followee].followers + delta)]
            [follower := profiles[follower].(following := profiles[follower].following + delta)]
  }

  /** A successful follow keeps the counters equal to the degrees. */
  lemma FollowKeepsCountersConsistent(profiles: map<int, Profile>, es: seq<Edge>, a: int, b: int)
    requires CountersConsistent(profiles, es)
    requires a in profiles && b in profiles && a != b && (a, b) !in es
    ensures CountersConsistent(Bump(profiles, a, b, 1), AddEdge(es, a, b))
  {
    forall p | p in profiles
      ensures InDegree(es + [(a, b)], p) == InDegree(es, p) + (if b == p then 1 else 0)
      ensures OutDegree(es + [(a, b)], p) == OutDegree(es, p) + (if a == p then 1 else 0)
    {
      DegreesAppend(es, (a, b), p);
    }
  }

  /** A successful unfollow keeps the counters equal to the degrees. */
  lemma UnfollowKeepsCountersConsistent(profiles: map<int, Profile>, es: seq<Edge>, a: int, b: int)
    requires CountersConsistent(profiles, es) && DistinctEdges(es)
    requires a in profiles && b in profiles && (a, b) in es
    ensures a != b
    ensures CountersConsistent(Bump(profiles, a, b, -1), RemoveEdge(es, a, b))
  {
    forall p | p in profiles
      ensures InDegree(RemoveEdge(es, a, b), p) == InDegree(es, p) - (if b == p then 1 else 0)
      ensures OutDegree(RemoveEdge(es, a, b), p) == OutDegree(es, p) - (if a == p then 1 else 0)
    {
      DegreesRemove(es, a, b, p);
    }
  }

  /** Follow then unfollow restores both the through table and the
      counters. */
  lemma FollowThenUnfollowRestores(profiles: map<int, Profile>, es: seq<Edge>, a: int, b: int)
    requires a in profiles && b in profiles && a != b && (a, b) !in es
    ensures RemoveEdge(AddEdge(es, a, b), a, b) == es
    ensures Bump(Bump(profiles, a, b, 1), a, b, -1) == profiles
  {
    RemoveAfterAdd(es, a, b);
    var back := Bump(Bump(profiles, a, b, 1), a, b, -1);
    assert forall p :: p in profiles ==> back[p] == profiles[p];
  }

  // ------------------------------------------------------------ views.py

  datatype FollowError = ProfileDoesNotExist | CannotFollowYourself | AlreadyFollowing | NotFollowing
  {
    /** The validation messages; `ProfileDoesNotExist` is an exception class
        of its own whose text lies outside this model. */
    function Message(): string
      requires !ProfileDoesNotExist?
    {
      match this
      case CannotFollowYourself => "You can not follow yourself."
      case AlreadyFollowing => "Already following this user"
      case NotFollowing => "You do not follow this user"
    }
  }

  /** How the self-follow guard compares the two primary keys. The source
      writes `follower.pk is followee.pk`: object identity, which CPython
      gives equal ints only in its small-integer cache (-5 to 256) when the
      two were loaded separately. `ValueEquality` is the intended `==`. */
  datatype SelfTest = ValueEquality | PythonIdentity

  predicate SameProfile(test: SelfTest, a: int, b: int)
  {
    match test
    case ValueEquality => a == b
    case PythonIdentity => a == b && -5 <= a <= 256
  }

  /** The username index is the `user__username` lookup: one profile per
      username. */
  ghost predicate Indexed(profiles: map<int, Profile>, byUsername: map<string, int>)
  {
    && (forall name :: name in byUsername ==> byUsername[name] in profiles && profiles[byUsername[name]].username == name)
    && (forall p :: p in profiles ==> profiles[p].username in byUsername && byUsername[profiles[p].username] == p)
  }

  lemma BumpKeepsIndexed(profiles: map<int, Profile>, byUsername: map<string, int>, a: int, b: int, delta: int)
    requires Indexed(profiles, byUsername) && a in profiles && b in profiles
    ensures Indexed(Bump(profiles, a, b, delta), byUsername)
  {
    var bumped := Bump(profiles, a, b, delta);
    assert forall p :: p in bumped ==> bumped[p].username == profiles[p].username;
  }

  /** The outcome of one endpoint call: the response (the followee's
      profile, or the error raised) and the profile and through tables
      afterwards. */
  datatype GraphStep = GraphStep(response: Result<Profile, FollowError>, profiles: map<int, Profile>, follows: seq<Edge>)

  /** `ProfileFollowingAPIView.post`. */
  function FollowStep(profiles: map<int, Profile>, byUsername: map<string, int>, es: seq<Edge>,
                      follower: int, username: string, test: SelfTest): (s: GraphStep)
    requires Indexed(profiles, byUsername) && follower in profiles
    ensures s.response.Failure? ==> s.profiles == profiles && s.follows == es
    ensures s.response == Failure(ProfileDoesNotExist) <==> username !in byUsername
    ensures s.response == Failure(CannotFollowYourself) <==>
      username in byUsername && SameProfile(test, follower, byUsername[username])
    ensures s.response == Failure(AlreadyFollowing) <==>
      username in byUsername && !SameProfile(test, follower, byUsername[username]) &&
      (follower, byUsername[username]) in es
    ensures s.response.Success? ==>
      var followee := byUsername[username];
      && s.follows == es + [(follower, followee)]
      && s.profiles == Bump(profiles, follower, followee, 1)
      && s.response.value == profiles[followee].(followers := profiles[followee].followers + 1)
  {
    if username !in byUsername then GraphStep(Failure(ProfileDoesNotExist), profiles, es)
    else
      var followee := byUsername[username];
      if SameProfile(test, follower, followee) then GraphStep(Failure(CannotFollowYourself), profiles, es)
      else if (follower, followee) in es then GraphStep(Failure(AlreadyFollowing), profiles, es)
      else
        var followeeRow := profiles[followee].(followers := profiles[followee].followers + 1);
        GraphStep(Success(followeeRow), Bump(profiles, follower, followee, 1), AddEdge(es, follower, followee))
  }

  /** `ProfileFollowingAPIView.delete`. */
  function UnfollowStep(profiles: map<int, Profile>, byUsername: map<string, int>, es: seq<Edge>,
                        follower: int, username: string): (s: GraphStep)
    requires Indexed(profiles, byUsername) && follower in profiles
    ensures s.response.Failure? ==> s.profiles == profiles && s.follows == es
    ensures s.response == Failure(ProfileDoesNotExist) <==> username !in byUsername
    ensures s.response == Failure(NotFollowing) <==>
      username in byUsername && (follower, byUsername[username]) !in es
    ensures s.response.Success? ==>
      var followee := byUsername[username];
      && (follower, followee) in es
      && s.follows == RemoveEdge(es, follower, followee)
      && s.profiles == Bump(profiles, follower, followee, -1)
      && s.response.value == profiles[followee].(followers := profiles[followee].followers - 1)
  {
    if username !in byUsername then GraphStep(Failure(ProfileDoesNotExist), profiles, es)
    else
      var followee := byUsername[username];
      if (follower, followee) !in es then GraphStep(Failure(NotFollowing), profiles, es)
      else
        var followeeRow := profiles[followee].(followers := profiles[followee].followers - 1);
        GraphStep(Success(followeeRow), Bump(profiles, follower, followee, -1), RemoveEdge(es, follower, followee))
  }

  /** With the intended `==` guard, a successful follow adds one edge and
      raises the two counters by one each, so consistent counters stay
      consistent; a failed one changes nothing. */
  lemma FollowStepKeepsConsistent(profiles: map<int, Profile>, byUsername: map<string, int>, es: seq<Edge>,
                                  follower: int, username: string)
    requires Indexed(profiles, byUsername) && follower in profiles
    requires CountersConsistent(profiles, es)
    ensures var s := FollowStep(profiles, byUsername, es, follower, username, ValueEquality);
      CountersConsistent(s.profiles, s.follows)
  {
    var s := FollowStep(profiles, byUsername, es, follower, username, ValueEquality);
    if s.response.Success? {
      FollowKeepsCountersConsistent(profiles, es, follower, byUsername[username]);
    }
  }

  /** A successful unfollow lowers the two counters by one each, so
      consistent counters stay consistent; a failed one changes nothing. */
  lemma UnfollowStepKeepsConsistent(profiles: map<int, Profile>, byUsername: map<string, int>, es: seq<Edge>,
                                    follower: int, username: string)
    requires Indexed(profiles, byUsername) && follower in profiles
    requires CountersConsistent(profiles, es) && DistinctEdges(es)
    requires forall e :: e in es ==> e.0 in profiles && e.1 in profiles
    ensures var s := UnfollowStep(profiles, byUsername, es, follower, username);
      CountersConsistent(s.profiles, s.follows)
  {
    var s := UnfollowStep(profiles, byUsername, es, follower, username);
    if s.response.Success? {
      UnfollowKeepsCountersConsistent(profiles, es, follower, byUsername[username]);
    }
  }

  /** The guard as written: the profile with primary key 300 (outside the
      small-integer cache) passes the identity test against itself, so its
      user follows themself; the stale follower object then overwrites the
      followee's `followers + 1`, and the counters no longer match the
      through table. */
  lemma SelfFollowAsWritten()
    ensures var profiles := map[300 := Profile("jake", "", "", 0, 0)];
      var s := FollowStep(profiles, map["jake" := 300], [], 300, "jake", PythonIdentity);
      && s.response.Success?
      && s.follows == [(300, 300)]
      && s.profiles[300].followers == 0
      && InDegree(s.follows, 300) == 1
      && !CountersConsistent(s.profiles, s.follows)
  {
    var profiles := map[300 := Profile("jake", "", "", 0, 0)];
    var s := FollowStep(profiles, map["jake" := 300], [], 300, "jake", PythonIdentity);
    assert InDegree(s.follows, 300) == 1 by {
      assert s.follows[..0] == [];
    }
  }

  /** A successful follow followed by an unfollow of the same username
      gives back the original tables. */
  lemma FollowThenUnfollowStepRestores(profiles: map<int, Profile>, byUsername: map<string, int>, es: seq<Edge>,
                                       follower: int, username: string)
    requires Indexed(profiles, byUsername) && follower in profiles
    requires FollowStep(profiles, byUsername, es, follower, username, ValueEquality).response.Success?
    ensures var s1 := FollowStep(profiles, byUsername, es, follower, username, ValueEquality);
      var s2 := UnfollowStep(s1.profiles, byUsername, s1.follows, follower, username);
      s2.response.Success? && s2.profiles == profiles && s2.follows == es
  {
    var followee := byUsername[username];
    var s1 := FollowStep(profiles, byUsername, es, follower, username, ValueEquality);
    assert Indexed(s1.profiles, byUsername) by {
      forall p | p in s1.profiles ensures s1.profiles[p].username == profiles[p].username {
      }
    }
    FollowThenUnfollowRestores(profiles, es, follower, followee);
  }

  /** The usernames of the profiles with a row into `target`, in table
      order: `list_of_followers` of `RetrieveFollowersAPIView.retrieve`. */
  function FollowerNames(profiles: map<int, Profile>, es: seq<Edge>, target: int): (names: seq<string>)
    requires forall e :: e in es ==> e.0 in profiles
    ensures |names| == InDegree(es, target)
  {
    if es == [] then []
    else
      var init, last := es[..|es| - 1], es[|es| - 1];
      assert forall e :: e in init ==> e in es;
      FollowerNames(profiles, init, target) + (if last.1 == target then [profiles[last.0].ToString()] else [])
  }

  /** A username is listed exactly when its profile follows `target`. */
  lemma {:induction false} FollowerNamesExact(profiles: map<int, Profile>, es: seq<Edge>, target: int, name: string)
    requires forall e :: e in es ==> e.0 in profiles
    ensures name in FollowerNames(profiles, es, target) <==>
      exists f :: (f, target) in es && profiles[f].username == name
  {
    if es != [] {
      var init, last := es[..|es| - 1], es[|es| - 1];
      assert es == init + [last];
      assert forall e :: e in init ==> e in es;
      FollowerNamesExact(profiles, init, target, name);
      if exists f :: (f, target) in es && profiles[f].username == name {
        var f :| (f, target) in es && profiles[f].username == name;
        if (f, target) != last { assert (f, target) in init; }
      }
    }
  }

  /** The profiles, the username index and the `follows` through table. */
  class ProfileStore {
    var profiles: map<int, Profile>
    var byUsername: map<string, int>
    var follows: seq<Edge>

    ghost predicate Valid()
      reads this
    {
      && Indexed(profiles, byUsername)
      && (forall e :: e in follows ==> e.0 in profiles && e.1 in profiles)
      && DistinctEdges(follows)
    }

    constructor (profiles: map<int, Profile>, byUsername: map<string, int>)
      requires Indexed(profiles, byUsername)
      ensures Valid()
      ensures this.profiles == profiles && this.byUsername == byUsername && follows == []
    {
      this.profiles := profiles;
      this.byUsername := byUsername;
      follows := [];
    }

    /** `Profile.is_following`. */
    predicate IsFollowing(follower: int, followee: int)
      reads this
      ensures IsFollowing(follower, followee) <==> AddEdge(follows, follower, followee) == follows
    {
      (follower, followee) in follows
    }

    /** `Profile.follow`. */
    method Follow(follower: int, followee: int)
      requires Valid() && follower in profiles && followee in profiles
      modifies this`follows
      ensures Valid()
      ensures follows == AddEdge(old(follows), follower, followee)
      ensures IsFollowing(follower, followee)
    {
      if (follower, followee) !in follows {
        DistinctSnoc(follows, (follower, followee));
        follows := follows + [(follower, followee)];
      }
    }

    /** `Profile.unfollow`. */
    method Unfollow(follower: int, followee: int)
      requires Valid()
      modifies this`follows
      ensures Valid()
      ensures follows == RemoveEdge(old(follows), follower, followee)
      ensures !IsFollowing(follower, followee)
    {
      follows := RemoveEdge(follows, follower, followee);
    }

    /** `ProfileFollowingAPIView.post` for the profile `follower` of the
        authenticated user. */
    method FollowProfile(follower: int, username: string) returns (r: Result<Profile, FollowError>)
      requires Valid() && follower in profiles
      modifies this
      ensures Valid() && byUsername == old(byUsername)
      ensures GraphStep(r, profiles, follows) ==
        FollowStep(old(profiles), byUsername, old(follows), follower, username, ValueEquality)
      ensures CountersConsistent(old(profiles), old(follows)) ==> CountersConsistent(profiles, follows)
    {
      if username !in byUsername {
        return Failure(ProfileDoesNotExist);
      }
      var followee := byUsername[username];
      if follower == followee {
        return Failure(CannotFollowYourself);
      }
      if IsFollowing(follower, followee) {
        return Failure(AlreadyFollowing);
      }
      ghost var es := follows;
      Follow(follower, followee);
      var followeeRow := profiles[followee].(followers := profiles[followee].followers + 1);
      var followerRow := profiles[follower].(following := profiles[follower].following + 1);
      profiles := profiles[followee := followeeRow];
      profiles := profiles[follower := followerRow];
      r := Success(followeeRow);
      assert profiles == Bump(old(profiles), follower, followee, 1);
      BumpKeepsIndexed(old(profiles), byUsername, follower, followee, 1);
      if CountersConsistent(old(profiles), es) {
        FollowKeepsCountersConsistent(old(profiles), es, follower, followee);
      }
    }

    /** `ProfileFollowingAPIView.delete`. */
    method UnfollowProfile(follower: int, username: string) returns (r: Result<Profile, FollowError>)
      requires Valid() && follower in profiles
      modifies this
      ensures Valid() && byUsername == old(byUsername)
      ensures GraphStep(r, profiles, follows) ==
        UnfollowStep(old(profiles), byUsername, old(follows), follower, username)
      ensures CountersConsistent(old(profiles), old(follows)) ==> CountersConsistent(profiles, follows)
    {
      if username !in byUsername {
        return Failure(ProfileDoesNotExist);
      }
      var followee := byUsername[username];
      if !IsFollowing(follower, followee) {
        return Failure(NotFollowing);
      }
      ghost var es := follows;
      Unfollow(follower, followee);
      var followeeRow := profiles[followee].(followers := profiles[followee].followers - 1);
      var followerRow := profiles[follower].(following := profiles[follower].following - 1);
      profiles := profiles[followee := followeeRow];
      profiles := profiles[follower := followerRow];
      r := Success(followeeRow);
      assert profiles == Bump(old(profiles), follower, followee, -1);
      BumpKeepsIndexed(old(profiles), byUsername, follower, followee, -1);
      if CountersConsistent(old(profiles), es) {
        UnfollowKeepsCountersConsistent(old(profiles), es, follower, followee);
      }
    }

    /** `RetrieveFollowersAPIView.retrieve`: walks the through table and
        collects the username of every row pointing at the profile. */
    method RetrieveFollowers(username: string) returns (r: Result<seq<string>, FollowError>)
      requires Valid()
      ensures username !in byUsername ==> r == Failure(ProfileDoesNotExist)
      ensures username in byUsername ==>
        r.Success? &&
        (forall name :: name in r.value <==>
           exists f :: (f, byUsername[username]) in follows && profiles[f].username == name) &&
        |r.value| == InDegree(follows, byUsername[username])
      ensures username in byUsername && CountersConsistent(profiles, follows) ==>
        r.Success? && |r.value| == profiles[byUsername[username]].followers
    {
      if username !in byUsername {
        return Failure(ProfileDoesNotExist);
      }
      var target := byUsername[username];
      var listOfFollowers: seq<string> := [];
      var i := 0;
      while i < |follows|
        invariant 0 <= i <= |follows|
        invariant forall e :: e in follows[..i] ==> e.0 in profiles
        invariant listOfFollowers == FollowerNames(profiles, follows[..i], target)
      {
        assert follows[..i + 1][..i] == follows[..i];
        if follows[i].1 == target {
          listOfFollowers := listOfFollowers + [profiles[follows[i].0].ToString()];
        }
        i := i + 1;
      }
      assert follows[..i] == follows;
      forall name ensures name in listOfFollowers <==>
        exists f :: (f, target) in follows && profiles[f].username == name
      {
        FollowerNamesExact(profiles, follows, target, name);
      }
      r := Success(listOfFollowers);
    }
  }
}
