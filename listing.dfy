/**
 * list_users: the names in the data directory that end with ".json", in
 * listing order, each with every occurrence of ".json" removed (str.replace,
 * not a suffix strip). The directory listing is a parameter.
 */
module Listing {
  import opened Wrappers
  import opened Records

  const JsonSuffix: string := ".json"

  predicate EndsWith(s: string, suffix: string)
  {
    |suffix| <= |s| && s[|s| - |suffix|..] == suffix
  }

  /** pat occurs in s at index i. */
  predicate OccursAt(s: string, pat: string, i: nat)
  {
    i + |pat| <= |s| && s[i..i + |pat|] == pat
  }

  predicate Occurs(s: string, pat: string)
  {
    exists i: nat :: i <= |s| && OccursAt(s, pat, i)
  }

  /** s.replace(pat, ""): occurrences removed left to right, none overlapping. */
  function RemoveAll(s: string, pat: string): (r: string)
    requires pat != []
    ensures |r| <= |s|
    decreases |s|
  {
    if |s| < |pat| then s
    else if s[..|pat|] == pat then RemoveAll(s[|pat|..], pat)
    else [s[0]] + RemoveAll(s[1..], pat)
  }

  /** The user id list_users derives from a file name. */
  function UserIdOf(fileName: string): string
  {
    RemoveAll(fileName, JsonSuffix)
  }

  /** The file a user's record is stored in. */
  function FileNameOf(userId: string): string
  {
    userId + JsonSuffix
  }

  function ListUsers(files: seq<string>): (ids: seq<string>)
    ensures |ids| <= |files|
    ensures forall u :: u in ids <==> exists f :: f in files && EndsWith(f, JsonSuffix) && UserIdOf(f) == u
  {
    if files == [] then []
    else (if EndsWith(files[0], JsonSuffix) then [UserIdOf(files[0])] else []) + ListUsers(files[1..])
  }

  datatype ListError = DataDirectoryNotFound

  /** list_users on the data directory's listing, None when the directory does not exist. */
  function ListUsersIn(directory: Option<seq<string>>): (r: Result<seq<string>, ListError>)
    ensures r == Err(DataDirectoryNotFound) <==> directory.None?
    ensures r.Ok? ==> r.value == ListUsers(directory.value)
    ensures r.Ok? ==> forall u :: u in r.value <==> exists f :: f in directory.value && EndsWith(f, JsonSuffix) && UserIdOf(f) == u
  {
    match directory
    case None => Err(DataDirectoryNotFound)
    case Some(files) => Ok(ListUsers(files))
  }

  /** Listing order is kept: the ids of a listing are the ids of its parts, part after part. */
  lemma {:induction false} ListUsersConcat(a: seq<string>, b: seq<string>)
    ensures ListUsers(a + b) == ListUsers(a) + ListUsers(b)
  {
    if a != [] {
      assert (a + b)[0] == a[0];
      assert (a + b)[1..] == a[1..] + b;
      ListUsersConcat(a[1..], b);
    } else {
      assert a + b == b;
    }
  }

  /** A single name yields its id exactly when it ends with ".json". */
  lemma ListUsersSingle(f: string)
    ensures ListUsers([f]) == if EndsWith(f, JsonSuffix) then [UserIdOf(f)] else []
  {
    assert [f][1..] == [];
  }

  /** A user id without ".json" in it comes back unchanged from its file name. */
  lemma {:induction false} FileNameRoundTrip(userId: string)
    requires !Occurs(userId, JsonSuffix)
    ensures EndsWith(FileNameOf(userId), JsonSuffix)
    ensures UserIdOf(FileNameOf(userId)) == userId
    decreases |userId|
  {
    var s := FileNameOf(userId);
    assert s[|s| - |JsonSuffix|..] == JsonSuffix;
    if userId == [] {
      assert s == JsonSuffix;
      assert s[|JsonSuffix|..] == [];
    } else {
      assert s[..|JsonSuffix|] != JsonSuffix by {
        if |userId| >= |JsonSuffix| {
          assert s[..|JsonSuffix|] == userId[0..0 + |JsonSuffix|];
          assert !OccursAt(userId, JsonSuffix, 0);
        } else {
          assert s[|userId|] == '.';
          assert JsonSuffix[|userId|] != '.';
        }
      }
      var rest := userId[1..];
      assert !Occurs(rest, JsonSuffix) by {
        forall i: nat | OccursAt(rest, JsonSuffix, i)
          ensures OccursAt(userId, JsonSuffix, i + 1)
        {
          assert rest[i..i + |JsonSuffix|] == userId[i + 1..i + 1 + |JsonSuffix|];
        }
      }
      assert s[1..] == FileNameOf(rest);
      FileNameRoundTrip(rest);
      assert [s[0]] + rest == userId;
    }
  }

  /** replace is not a suffix strip: a user registered as "a.json" is listed as "a". */
  lemma ReplaceIsNotSuffixStrip()
    ensures UserIdOf(FileNameOf("a.json")) == "a"
  {
    var s := FileNameOf("a.json");
    assert s[0] == 'a' && JsonSuffix[0] == '.';
    assert s[..5] != JsonSuffix;
    assert s[1..] == ".json.json";
    assert s[1..][..5] == JsonSuffix;
    assert s[1..][5..] == ".json";
    assert s[1..][5..][5..] == [];
  }

  /**
   * When the directory holds exactly one file per stored user (and possibly
   * files not ending in ".json"), and no user id contains ".json",
   * list_users returns exactly the ids of the store.
   */
  lemma ListUsersOfStore(store: map<string, Record>, files: seq<string>)
    requires forall u :: u in store ==> !Occurs(u, JsonSuffix) && FileNameOf(u) in files
    requires forall f :: f in files && EndsWith(f, JsonSuffix) ==> exists u :: u in store && f == FileNameOf(u)
    ensures forall u :: u in ListUsers(files) <==> u in store
  {
    var ids := store.Keys;
    forall u | u in ids
      ensures u in ListUsers(files)
    {
      FileNameRoundTrip(u);
    }
    forall u | u in ListUsers(files)
      ensures u in ids
    {
      var f :| f in files && EndsWith(f, JsonSuffix) && UserIdOf(f) == u;
      var v :| v in ids && f == FileNameOf(v);
      FileNameRoundTrip(v);
    }
  }
}
