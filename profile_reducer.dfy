/** The profile slice of the store (src/app/profile/profile.reducer.ts). */
module ProfileReducer {
  import opened Wrappers
  import opened Actions

  /** The four profile fields are None while unknown; `error` is None when the property is absent. */
  datatype State = State(
    name: Option<string>,
    surname: Option<string>,
    birthDate: Option<string>,
    profileImage: Option<string>,
    isLoading: bool,
    error: Option<string>)

  /** The image every user has until one is stored. */
  const DefaultProfileImage: string := "/default/profile/profile"

  const Initial: State := State(None, None, None, Some(DefaultProfileImage), false, None)

  /**
   * profileReducer: one case per handled action type; every other action
   * leaves the state as it is. Only STORE_PROFILE_DATA changes the profile
   * shown, and only it and the two errors change the error.
   */
  function Reduce(state: State, action: Action): (r: State)
    ensures !action.StoreProfileData? ==> Profile(r) == Profile(state)
    ensures r.error != state.error ==>
      action.StoreProfileData? || action.ErrorSettingProfileData? || action.ErrorGettingProfileData?
  {
    match action
    case GetProfileData => state.(isLoading := true)
    case SetProfileData(_) => state.(isLoading := true)
    case StoreProfileData(p) => State(p.name, p.surname, p.birthDate, p.profileImage, false, None)
    case ErrorSettingProfileData(message) => state.(isLoading := false, error := Some(message))
    case ErrorGettingProfileData(message) => state.(isLoading := false, error := Some(message))
    case _ => state
  }

  /** The profile the state shows. */
  function Profile(s: State): ProfileModel
  {
    ProfileModel(s.name, s.surname, s.birthDate, s.profileImage)
  }

  predicate Handles(a: Action)
  {
    a.GetProfileData? || a.SetProfileData? || a.StoreProfileData?
    || a.ErrorSettingProfileData? || a.ErrorGettingProfileData?
  }

  /** The initial state: no name, surname or birth date, the default image, not loading. */
  lemma InitialProfile()
    ensures Profile(Initial) == ProfileModel(None, None, None, Some(DefaultProfileImage))
    ensures !Initial.isLoading && Initial.error.None?
  {
  }

  /** GET_PROFILE_DATA and SET_PROFILE_DATA raise the loading flag and keep the profile and the error. */
  lemma RequestsOnlyRaiseLoading(s: State, a: Action)
    requires a.GetProfileData? || a.SetProfileData?
    ensures Reduce(s, a).isLoading
    ensures Profile(Reduce(s, a)) == Profile(s) && Reduce(s, a).error == s.error
  {
  }

  /** STORE_PROFILE_DATA shows exactly the payload, stops loading and drops the error, whatever came before. */
  lemma StoreReplacesProfile(s: State, p: ProfileModel)
    ensures Profile(Reduce(s, StoreProfileData(p))) == p
    ensures !Reduce(s, StoreProfileData(p)).isLoading && Reduce(s, StoreProfileData(p)).error.None?
  {
  }

  /** Both profile errors keep the profile, stop loading and record the payload. */
  lemma ErrorsKeepProfile(s: State, a: Action)
    requires a.ErrorSettingProfileData? || a.ErrorGettingProfileData?
    ensures Profile(Reduce(s, a)) == Profile(s)
    ensures !Reduce(s, a).isLoading && Reduce(s, a).error == Some(a.message)
  {
  }

  /** Actions the switch does not name leave the profile state as it is. */
  lemma UnhandledActionsKeepState(s: State, a: Action)
    requires !Handles(a) && Foreign(a)
    ensures Reduce(s, a) == s
  {
  }

  /** A request followed by the stored answer ends idle, showing the answer, with no error. */
  lemma GetThenStoreShowsPayload(s: State, p: ProfileModel)
    ensures var r := Replay(Reduce, s, [GetProfileData, StoreProfileData(p)]);
      !r.isLoading && Profile(r) == p && r.error.None?
  {
    var loading := Reduce(s, GetProfileData);
    assert [GetProfileData, StoreProfileData(p)][1..] == [StoreProfileData(p)];
    assert [StoreProfileData(p)][1..] == [];
    assert Replay(Reduce, s, [GetProfileData, StoreProfileData(p)])
        == Replay(Reduce, loading, [StoreProfileData(p)])
        == Replay(Reduce, Reduce(loading, StoreProfileData(p)), []);
  }
}
