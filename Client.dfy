/**
 * The owner and superuser checks of the Akairo client. The configured ids
 * are either one id or a list of ids; the user to check arrives already
 * resolved to an id (`users.resolveId`), which is null when the user could
 * not be resolved.
 */
module Client {
  import opened Common

  /** `ownerID` / `superUserID`: a single snowflake or an array of them. */
  datatype IdConfig = Single(id: Snowflake) | List(ids: seq<Snowflake>)

  /** The Akairo part of the client options; `None` is an omitted key. */
  datatype AkairoOptions = AkairoOptions(ownerID: Option<IdConfig>, superUserID: Option<IdConfig>)

  /** The client fields this model reads; they are not changed after construction. */
  datatype AkairoClient = AkairoClient(ownerID: IdConfig, superUserID: IdConfig)

  /** The constructor: an omitted `ownerID` or `superUserID` defaults to the empty string. */
  function NewClient(options: AkairoOptions): (c: AkairoClient)
    ensures options.ownerID.None? ==> c.ownerID == Single("")
    ensures options.superUserID.None? ==> c.superUserID == Single("")
    ensures options.ownerID.Some? ==> c.ownerID == options.ownerID.value
    ensures options.superUserID.Some? ==> c.superUserID == options.superUserID.value
  {
    AkairoClient(options.ownerID.GetOr(Single("")), options.superUserID.GetOr(Single("")))
  }

  /**
   * JavaScript's `String.prototype.includes`: whether `needle` occurs in
   * `hay` as a contiguous substring (the empty string occurs everywhere).
   */
  function Includes(hay: string, needle: string): (r: bool)
    ensures needle <= hay ==> r
    ensures r ==> |needle| <= |hay|
    decreases |hay|
  {
    needle <= hay || (|hay| > 0 && Includes(hay[1..], needle))
  }

  /** Every slice of a string is found by `Includes`. */
  lemma {:induction false} IncludesSlice(hay: string, i: nat, j: nat)
    requires i <= j <= |hay|
    ensures Includes(hay, hay[i..j])
    decreases i
  {
    if i > 0 {
      IncludesSlice(hay[1..], i - 1, j - 1);
      assert hay[1..][i - 1..j - 1] == hay[i..j];
    }
  }

  /** Whatever `Includes` finds occurs in the string as a slice. */
  lemma {:induction false} IncludesIsSlice(hay: string, needle: string)
    requires Includes(hay, needle)
    ensures exists i, j :: 0 <= i <= j <= |hay| && hay[i..j] == needle
    decreases |hay|
  {
    if needle <= hay {
      assert hay[0..|needle|] == needle;
    } else {
      IncludesIsSlice(hay[1..], needle);
      var i, j :| 0 <= i <= j <= |hay[1..]| && hay[1..][i..j] == needle;
      assert hay[i + 1..j + 1] == hay[1..][i..j];
    }
  }

  /** The string a null id turns into when it is searched for in a string. */
  function Needle(id: Option<Snowflake>): string {
    match id
    case Some(s) => s
    case None => "null"
  }

  /**
   * `Array.prototype.includes` on a list of ids, or `===` on a single id.
   * A null id matches neither, since configured ids are strings.
   */
  predicate Matches(config: IdConfig, id: Option<Snowflake>) {
    id.Some? &&
    match config
    case Single(s) => id.value == s
    case List(ids) => id.value in ids
  }

  /** `isOwner`: list membership for an array `ownerID`, equality otherwise. */
  function IsOwner(c: AkairoClient, id: Option<Snowflake>): (r: bool)
    ensures r ==> id.Some?
    ensures id.Some? && c.ownerID == Single(id.value) ==> r
  {
    Matches(c.ownerID, id)
  }

  /**
   * `isSuperUser` as written. With an array `superUserID` the owner test is
   * `ownerID.includes(id)`, which is a substring search when `ownerID` is a
   * string; with a scalar `superUserID` the owner test is `id === ownerID`,
   * which never holds when `ownerID` is an array.
   */
  function IsSuperUser(c: AkairoClient, id: Option<Snowflake>): (r: bool)
    ensures Matches(c.superUserID, id) ==> r
    ensures r ==> Matches(c.superUserID, id) || IsOwner(c, id) ||
                  (c.superUserID.List? && c.ownerID.Single? && Includes(c.ownerID.id, Needle(id)))
  {
    match c.superUserID
    case List(_) =>
      Matches(c.superUserID, id) ||
      (match c.ownerID
       case List(_) => Matches(c.ownerID, id)
       case Single(s) => Includes(s, Needle(id)))
    case Single(s) =>
      id == Some(s) || (c.ownerID.Single? && id == Some(c.ownerID.id))
  }

  /** The two shapes of `ownerID` decide `isOwner` as membership or as equality. */
  lemma IsOwnerCases(c: AkairoClient, id: Option<Snowflake>)
    ensures c.ownerID.List? ==> (IsOwner(c, id) <==> id.Some? && id.value in c.ownerID.ids)
    ensures c.ownerID.Single? ==> (IsOwner(c, id) <==> id == Some(c.ownerID.id))
    ensures !IsOwner(c, None)
  {
  }

  /** Scalar `superUserID` and scalar `ownerID`: a superuser is exactly one of the two ids. */
  lemma ScalarSuperUser(c: AkairoClient, id: Option<Snowflake>)
    requires c.superUserID.Single? && c.ownerID.Single?
    ensures IsSuperUser(c, id) <==> id == Some(c.superUserID.id) || id == Some(c.ownerID.id)
  {
  }

  /** Array `superUserID` and array `ownerID`: a superuser is in one of the two lists. */
  lemma ListSuperUser(c: AkairoClient, id: Option<Snowflake>)
    requires c.superUserID.List? && c.ownerID.List?
    ensures IsSuperUser(c, id) <==> id.Some? && (id.value in c.superUserID.ids || id.value in c.ownerID.ids)
  {
  }

  /**
   * Array `superUserID` and string `ownerID`: every substring of the owner id
   * passes `isSuperUser`, not only the owner id itself.
   */
  lemma StringOwnerSubstring(c: AkairoClient, i: nat, j: nat)
    requires c.superUserID.List? && c.ownerID.Single?
    requires i <= j <= |c.ownerID.id|
    ensures IsSuperUser(c, Some(c.ownerID.id[i..j]))
  {
    IncludesSlice(c.ownerID.id, i, j);
  }

  /**
   * Array `superUserID` and string `ownerID`: a superuser is exactly an id
   * in the list or a substring of the owner id.
   */
  lemma StringOwnerIff(c: AkairoClient, id: Snowflake)
    requires c.superUserID.List? && c.ownerID.Single?
    ensures IsSuperUser(c, Some(id)) <==>
              id in c.superUserID.ids ||
              exists i, j :: 0 <= i <= j <= |c.ownerID.id| && c.ownerID.id[i..j] == id
  {
    if IsSuperUser(c, Some(id)) && id !in c.superUserID.ids {
      IncludesIsSlice(c.ownerID.id, id);
    }
    if exists i, j :: 0 <= i <= j <= |c.ownerID.id| && c.ownerID.id[i..j] == id {
      var i, j :| 0 <= i <= j <= |c.ownerID.id| && c.ownerID.id[i..j] == id;
      StringOwnerSubstring(c, i, j);
    }
  }

  /**
   * Scalar `superUserID` and array `ownerID`: only the superuser id itself
   * passes; no owner other than it does.
   */
  lemma MixedListOwner(c: AkairoClient, id: Option<Snowflake>)
    requires c.superUserID.Single? && c.ownerID.List?
    ensures IsSuperUser(c, id) <==> id == Some(c.superUserID.id)
  {
  }

  /**
   * Every owner is a superuser unless `superUserID` is a single id while
   * `ownerID` is an array.
   */
  lemma OwnerIsSuperUser(c: AkairoClient, id: Option<Snowflake>)
    requires !(c.superUserID.Single? && c.ownerID.List?)
    ensures IsOwner(c, id) ==> IsSuperUser(c, id)
  {
    if IsOwner(c, id) && c.superUserID.List? && c.ownerID.Single? {
      IncludesSlice(c.ownerID.id, 0, |c.ownerID.id|);
      assert c.ownerID.id[0..|c.ownerID.id|] == c.ownerID.id;
    }
  }

  /** As written, a fragment of a string owner id is granted superuser rights. */
  lemma SubstringGrantsSuperUser()
    ensures var c := AkairoClient(Single("123456"), List([]));
            IsSuperUser(c, Some("34")) && !IsOwner(c, Some("34")) && !Matches(c.superUserID, Some("34"))
  {
    var c := AkairoClient(Single("123456"), List([]));
    StringOwnerSubstring(c, 2, 4);
    assert c.ownerID.id[2..4] == "34";
  }

  /** As written, an owner listed in an array `ownerID` is not a superuser when `superUserID` is scalar. */
  lemma OwnerListExcluded()
    ensures var c := AkairoClient(List(["1"]), Single("2"));
            IsOwner(c, Some("1")) && !IsSuperUser(c, Some("1"))
  {
  }

  /**
   * The evidently intended superuser test: exact match against the
   * configured superuser id(s), or ownership.
   */
  function IsSuperUserIntended(c: AkairoClient, id: Option<Snowflake>): (r: bool)
    ensures IsOwner(c, id) ==> r
    ensures Matches(c.superUserID, id) ==> r
    ensures r ==> IsOwner(c, id) || Matches(c.superUserID, id)
    ensures r ==> id.Some?
  {
    Matches(c.superUserID, id) || IsOwner(c, id)
  }

  /** The corrected test rejects the fragment "34" that the written one accepts. */
  lemma SubstringRejectedWhenIntended()
    ensures var c := AkairoClient(Single("123456"), List([]));
            !IsSuperUserIntended(c, Some("34")) && IsSuperUser(c, Some("34"))
  {
    SubstringGrantsSuperUser();
  }

  /**
   * The intended test agrees with the code as written whenever both ids are
   * configured in the same shape.
   */
  lemma IntendedAgreesOnSameShape(c: AkairoClient, id: Option<Snowflake>)
    requires c.superUserID.Single? == c.ownerID.Single?
    ensures IsSuperUserIntended(c, id) == IsSuperUser(c, id)
  {
  }
}
