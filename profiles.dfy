/**
 * GET /profile and PUT /profile.  Profiles live in a document collection
 * whose `userId` is a unique key, modelled as a map from user id to profile;
 * the caller's id comes from the authentication layer in front of the handlers.
 */
module Profiles {
  import opened Options
  import opened Wire
  import opened Users

  /** A field of the JSON request body: left out, sent as `null`, or sent with a value. */
  datatype Field<T> = Omitted | Null | Given(value: T)

  datatype UpdateBody = UpdateBody(age: Field<int>, dob: Field<Date>, contact: Field<string>)

  /** The steps of getProfile that can throw. */
  datatype GetStep = FindUserRow | FindProfile

  datatype GetFault = GetFault(at: GetStep, error: StoreError)

  /** `new Date(null)` is the epoch. */
  const Epoch := Date(0)

  /**
   * The profile an update stores: every field is replaced, an omitted field
   * (or a null age or contact) becomes null, and a null dob becomes the epoch.
   */
  function Replacement(body: UpdateBody): (p: Profile)
    ensures body.age.Given? <==> p.age.Some?
    ensures body.age.Given? ==> p.age.value == body.age.value
    ensures body.dob.Omitted? <==> p.dob.None?
    ensures body.dob.Null? ==> p.dob == Some(Epoch)
    ensures body.dob.Given? ==> p.dob == Some(body.dob.value)
    ensures body.contact.Given? <==> p.contact.Some?
    ensures body.contact.Given? ==> p.contact.value == body.contact.value
  {
    Profile(
      if body.age.Given? then Some(body.age.value) else None,
      match body.dob
        case Omitted => None
        case Null => Some(Epoch)
        case Given(d) => Some(d),
      if body.contact.Given? then Some(body.contact.value) else None)
  }

  /**
   * `findOneAndUpdate({userId}, ..., {upsert: true})`: the caller's profile is
   * created if absent and replaced otherwise; no profile is ever removed and no
   * other user's profile changes.
   */
  function Upsert(profiles: map<int, Profile>, userId: int, body: UpdateBody): (m: map<int, Profile>)
    ensures m.Keys == profiles.Keys + {userId}
    ensures m[userId] == Replacement(body)
    ensures forall k :: k in profiles && k != userId ==> m[k] == profiles[k]
  {
    profiles[userId := Replacement(body)]
  }

  /** Updating twice with the same body stores what updating once stores. */
  lemma UpsertIdempotent(profiles: map<int, Profile>, userId: int, body: UpdateBody)
    ensures Upsert(Upsert(profiles, userId, body), userId, body) == Upsert(profiles, userId, body)
  {
  }

  /** What an update stores does not depend on what was stored before: nothing is merged. */
  lemma UpsertForgetsPrevious(before: map<int, Profile>, after: map<int, Profile>, userId: int, body: UpdateBody)
    ensures Upsert(before, userId, body)[userId] == Upsert(after, userId, body)[userId]
  {
  }

  /** The getProfile handler; `fault` names the step that throws, if it is reached. */
  function GetProfile(users: Table, profiles: map<int, Profile>, callerId: int, fault: Option<GetFault>): (r: Response)
    ensures r.status in {200, 404, 500}
    ensures var user := FindById(users.rows, callerId);
            r.status == 404 <==> user.None? && !(fault.Some? && fault.value.at == FindUserRow)
    ensures r.status == 404 ==> r.body == Message(UserNotFound)
    ensures r.status == 500 ==> fault.Some? && r.body == ErrorReport(FetchFailed, fault.value.error.message, None)
    ensures var user := FindById(users.rows, callerId);
            r.status == 200 ==>
              && user.Some?
              && r.body.Account?
              && r.body.user == PublicUser(callerId, user.value.username, user.value.email)
              && (r.body.profile.None? <==> callerId !in profiles)
              && (r.body.profile.Some? ==> r.body.profile.value == profiles[callerId])
    ensures fault.None? ==> r.status != 500
    ensures fault.Some? && (fault.value.at == FindUserRow || FindById(users.rows, callerId).Some?) ==>
              r == Response(500, ErrorReport(FetchFailed, fault.value.error.message, None))
  {
    if fault.Some? && fault.value.at == FindUserRow then
      Response(500, ErrorReport(FetchFailed, fault.value.error.message, None))
    else match FindById(users.rows, callerId)
      case None => Response(404, Message(UserNotFound))
      case Some(user) =>
        if fault.Some? then
          // the only step left that can throw is the profile lookup
          Response(500, ErrorReport(FetchFailed, fault.value.error.message, None))
        else if user.id !in profiles then
          Response(200, Account(Project(user), None))
        else
          Response(200, Account(Project(user), Some(profiles[user.id])))
  }

  /** The profile collection, updated in place by the update handler. */
  class ProfileStore {
    var profiles: map<int, Profile>

    constructor ()
      ensures profiles == map[]
    {
      profiles := map[];
    }

    /** The updateProfile handler; `fault` is the error the upsert throws, if any. */
    method UpdateProfile(callerId: int, body: UpdateBody, fault: Option<StoreError>) returns (response: Response)
      modifies this
      ensures fault.None? ==>
                && profiles == Upsert(old(profiles), callerId, body)
                && response == Response(200, ProfileFields(profiles[callerId]))
      ensures fault.Some? ==>
                && profiles == old(profiles)
                && response == Response(500, ErrorReport(UpdateFailed, fault.value.message, fault.value.code))
    {
      if fault.Some? {
        return Response(500, ErrorReport(UpdateFailed, fault.value.message, fault.value.code));
      }
      var profile := Replacement(body);
      profiles := profiles[callerId := profile];
      response := Response(200, ProfileFields(profile));
    }
  }

  /**
   * After a successful update, reading the profile back gives exactly the
   * fields the update answered with, for any user that still has a row.
   */
  lemma UpdateThenGet(users: Table, profiles: map<int, Profile>, callerId: int, body: UpdateBody)
    requires FindById(users.rows, callerId).Some?
    ensures var stored := Upsert(profiles, callerId, body);
            GetProfile(users, stored, callerId, None).body.profile == Some(Replacement(body))
  {
  }

  /** A user who has never updated sees `profile: null`, not an error. */
  lemma NoProfileYet(users: Table, profiles: map<int, Profile>, callerId: int)
    requires FindById(users.rows, callerId).Some?
    requires callerId !in profiles
    ensures GetProfile(users, profiles, callerId, None)
              == Response(200, Account(Project(FindById(users.rows, callerId).value), None))
  {
  }
}
