/**
 * The `Nation` document: its fields, the casting and validation the schema
 * applies when a document is created, and the per-document invariant the
 * handlers keep.
 */
module NationModel {
  import opened Wrappers
  import opened Text
  import opened Seqs
  import opened ApiErrors

  /** A document id (an ObjectId in the store). */
  type NationId = nat

  const MaxNameLength: nat := 50

  datatype Nation = Nation(
    name: string,
    founderAddress: string,
    memberCount: nat,
    members: seq<string>,
    territory: Option<string>,
    createdAt: nat)

  /** `if (nation.territory)`: a territory is present and non-empty. */
  predicate HasTerritory(n: Nation)
  {
    n.territory.Some? && n.territory.value != ""
  }

  /**
   * A name the schema can store: required, already trimmed, and at most 50
   * long as JavaScript counts length, in UTF-16 code units.
   */
  predicate StoredName(name: string)
  {
    name != "" && Utf16Length(name) <= MaxNameLength && Trimmed(name)
  }

  /**
   * The lower-case forms of the member addresses. Members are stored as the
   * requests spelled them; handlers compare them ignoring case.
   */
  function MemberKeys(members: seq<string>): seq<string>
  {
    seq(|members|, i requires 0 <= i < |members| => Lower(members[i]))
  }

  /** The leave handler's filter: drops every member equal to `key` ignoring case. */
  function RemoveMember(members: seq<string>, key: string): (r: seq<string>)
    ensures forall m :: m in r <==> m in members && Lower(m) != key
  {
    Filter(members, (m: string) => Lower(m) != key)
  }

  /** A trimmed name is storable exactly when it is non-empty and short enough. */
  lemma TrimmedName(name: string)
    ensures StoredName(Trim(name)) <==> Trim(name) != "" && Utf16Length(Trim(name)) <= MaxNameLength
    ensures StoredName(name) ==> Trim(name) == name
  {
    TrimOfTrimmed(name);
  }

  /**
   * The schema's casting and validation of a new document: `name` is trimmed
   * and must be non-empty and at most 50 characters, `founderAddress` is
   * lower-cased and required, `territory` starts absent.
   */
  function Build(name: string, founderAddress: string, memberCount: nat, members: seq<string>, createdAt: nat)
    : (r: Result<Nation, ApiError>)
    ensures Trim(name) == "" ==> r == Failure(NameRequired)
    ensures Trim(name) != "" && Utf16Length(Trim(name)) > MaxNameLength ==> r == Failure(NameTooLong)
    ensures r.Success? <==> StoredName(Trim(name)) && founderAddress != ""
    ensures r == Failure(FounderRequired) <==> StoredName(Trim(name)) && founderAddress == ""
    ensures r.Success? ==>
              && r.value.name == Trim(name)
              && StoredName(r.value.name)
              && r.value.founderAddress == Lower(founderAddress)
              && Lower(r.value.founderAddress) == r.value.founderAddress
              && r.value.memberCount == memberCount
              && r.value.members == members
              && !HasTerritory(r.value)
  {
    var stored := Trim(name);
    LowerIdempotent(founderAddress);
    if stored == "" then Failure(NameRequired)
    else if Utf16Length(stored) > MaxNameLength then Failure(NameTooLong)
    else if Lower(founderAddress) == "" then Failure(FounderRequired)
    else Success(Nation(stored, Lower(founderAddress), memberCount, members, None, createdAt))
  }

  /**
   * The limit counts code units, not characters: a name of 26 astral
   * characters (emoji, say) is 52 units long and is refused.
   */
  lemma AstralNameTooLong()
    ensures var name := seq(26, _ => '\U{1F600}');
            && |name| == 26 && Utf16Length(name) == 52
            && Build(name, "0xab", 1, ["0xab"], 0) == Failure(NameTooLong)
  {
    var name := seq(26, _ => '\U{1F600}');
    assert forall i :: 0 <= i < |name| ==> IsAstral(name[i]);
    Utf16LengthExtremes(name);
    assert Trimmed(name) by {
      assert !IsSpace(name[0]) && !IsSpace(name[25]);
    }
    TrimOfTrimmed(name);
    assert Trim(name) == name && name != [];
    assert Utf16Length(Trim(name)) > MaxNameLength;
  }

  /** A document built from the schema defaults alone: `memberCount` 1, `members` empty. */
  function FromDefaults(name: string, founderAddress: string, createdAt: nat): Result<Nation, ApiError>
  {
    Build(name, founderAddress, 1, [], createdAt)
  }

  /** The per-document invariant every handler keeps. */
  predicate Consistent(n: Nation)
  {
    && StoredName(n.name)
    && Lower(n.founderAddress) == n.founderAddress
    && n.memberCount == |n.members|
    && n.founderAddress in MemberKeys(n.members)
    && Distinct(MemberKeys(n.members))
    && (n.territory.Some? ==> n.territory.value != "")
  }

  /** The defaults disagree with each other: such a document breaks `memberCount == |members|`. */
  lemma DefaultsAreInconsistent(name: string, founderAddress: string, createdAt: nat)
    ensures FromDefaults(name, founderAddress, createdAt).Success? ==>
              FromDefaults(name, founderAddress, createdAt).value.memberCount != |FromDefaults(name, founderAddress, createdAt).value.members|
              && !Consistent(FromDefaults(name, founderAddress, createdAt).value)
  {
  }

  lemma MemberKeysAppend(members: seq<string>, address: string)
    ensures MemberKeys(members + [address]) == MemberKeys(members) + [Lower(address)]
  {
  }

  /** The members left after removing `key` are exactly the others, compared ignoring case. */
  lemma RemoveMemberKeys(members: seq<string>, key: string)
    ensures forall a :: a in MemberKeys(RemoveMember(members, key)) <==> a in MemberKeys(members) && a != key
  {
    var r := RemoveMember(members, key);
    forall a
      ensures a in MemberKeys(r) <==> a in MemberKeys(members) && a != key
    {
      if a in MemberKeys(r) {
        var i :| 0 <= i < |r| && MemberKeys(r)[i] == a;
        assert r[i] in r;
        var j :| 0 <= j < |members| && members[j] == r[i];
        assert MemberKeys(members)[j] == a;
      }
      if a in MemberKeys(members) && a != key {
        var i :| 0 <= i < |members| && MemberKeys(members)[i] == a;
        assert members[i] in r;
        var j :| 0 <= j < |r| && r[j] == members[i];
        assert MemberKeys(r)[j] == a;
      }
    }
  }

  /**
   * Removing a member who occurs once (ignoring case) shortens the list by
   * exactly one and keeps the members distinct; removing an absent one
   * changes nothing.
   */
  lemma RemoveMemberOnce(members: seq<string>, key: string)
    requires Distinct(MemberKeys(members))
    ensures Distinct(MemberKeys(RemoveMember(members, key)))
    ensures key in MemberKeys(members) ==> |RemoveMember(members, key)| == |members| - 1
    ensures key !in MemberKeys(members) ==> RemoveMember(members, key) == members
  {
    RemoveMemberDistinct(members, key);
    RemoveMemberLength(members, key);
  }

  lemma {:induction false} RemoveMemberDistinct(members: seq<string>, key: string)
    requires Distinct(MemberKeys(members))
    ensures Distinct(MemberKeys(RemoveMember(members, key)))
    decreases |members|
  {
    if members != [] {
      var m, rest := members[0], members[1..];
      var rr := RemoveMember(rest, key);
      HeadAndRest(members);
      RemoveMemberDistinct(rest, key);
      if Lower(m) == key {
        assert RemoveMember(members, key) == rr;
      } else {
        assert RemoveMember(members, key) == [m] + rr;
        RemoveMemberKeys(rest, key);
        DistinctCons(Lower(m), MemberKeys(rr));
        assert MemberKeys([m] + rr) == [Lower(m)] + MemberKeys(rr);
      }
    }
  }

  lemma {:induction false} RemoveMemberLength(members: seq<string>, key: string)
    requires Distinct(MemberKeys(members))
    ensures key in MemberKeys(members) ==> |RemoveMember(members, key)| == |members| - 1
    ensures key !in MemberKeys(members) ==> RemoveMember(members, key) == members
    decreases |members|
  {
    if members != [] {
      var m, rest := members[0], members[1..];
      HeadAndRest(members);
      RemoveMemberLength(rest, key);
      if Lower(m) == key {
        assert MemberKeys(members)[0] == key;
        assert RemoveMember(members, key) == RemoveMember(rest, key);
      } else {
        assert RemoveMember(members, key) == [m] + RemoveMember(rest, key);
        if key in MemberKeys(members) {
          var k :| 0 <= k < |members| && MemberKeys(members)[k] == key;
          assert MemberKeys(rest)[k - 1] == key;
        }
      }
    }
  }

  /** The head's key is not among the rest's, which stay distinct. */
  lemma HeadAndRest(members: seq<string>)
    requires members != [] && Distinct(MemberKeys(members))
    ensures members == [members[0]] + members[1..]
    ensures MemberKeys(members[1..]) == MemberKeys(members)[1..]
    ensures Lower(members[0]) !in MemberKeys(members[1..])
    ensures Distinct(MemberKeys(members[1..]))
  {
    var keys := MemberKeys(members);
    assert MemberKeys(members[1..]) == keys[1..];
    forall k | 0 <= k < |members| - 1
      ensures keys[1..][k] != Lower(members[0])
    {
      assert keys[1..][k] == keys[k + 1] && keys[0] == Lower(members[0]);
    }
  }

  lemma DistinctCons(x: string, s: seq<string>)
    requires x !in s && Distinct(s)
    ensures Distinct([x] + s)
  {
    var t := [x] + s;
    forall i, j | 0 <= i < j < |t|
      ensures t[i] != t[j]
    {
      assert t[j] == s[j - 1];
      if i > 0 {
        assert t[i] == s[i - 1];
      }
    }
  }
}
