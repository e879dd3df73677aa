/**
  The permission phrase of `!command restrict` (`mapPermArgToRoleIds`): a free-text phrase,
  compared after lower-casing and trimming, becomes the list of role ids a `roles`
  restriction grants.
*/
module Permissions {
  import opened Text

  /** The phrases that grant a role. */
  const RolePhrases: set<string> := {"sub", "vip", "mod", "streamer"}

  /** The role ids a restriction can hold. */
  const RoleIds: set<string> := {"sub", "vip", "mod", "broadcaster"}

  /** `permArg.toLowerCase().trim()`. */
  function NormalizePerm(s: string): (r: string)
    ensures IsTrimmed(r) && |r| <= |s|
  {
    Trim(ToLower(s))
  }

  /** "all" and "everyone" are not role phrases. */
  lemma GrantAllPhrasesAreNotRolePhrases()
    ensures "all" !in RolePhrases && "everyone" !in RolePhrases
  {
    assert "all"[0] == 'a';
    assert "everyone"[0] == 'e';
  }

  /** The `switch` over the normalized phrase. */
  function RolesOfPhrase(normalizedPerm: string): (roleIds: seq<string>)
    ensures |roleIds| <= 1
    ensures roleIds != [] ==> roleIds[0] in RoleIds
    ensures roleIds != [] <==> normalizedPerm in RolePhrases
  {
    GrantAllPhrasesAreNotRolePhrases();
    if normalizedPerm == "all" || normalizedPerm == "everyone" then []
    else if normalizedPerm == "sub" then ["sub"]
    else if normalizedPerm == "vip" then ["vip"]
    else if normalizedPerm == "mod" then ["mod"]
    else if normalizedPerm == "streamer" then ["broadcaster"]
    else []
  }

  /** `mapPermArgToRoleIds(permArg)`; `None` is a missing argument. "all", "everyone", the
      empty phrase and every unknown phrase (a custom group's name among them) grant no role. */
  function MapPermArgToRoleIds(permArg: Option<string>): (roleIds: seq<string>)
    ensures |roleIds| <= 1
    ensures roleIds != [] ==> roleIds[0] in RoleIds
    ensures roleIds != [] <==> permArg.Some? && NormalizePerm(permArg.value) in RolePhrases
  {
    if permArg.None? || permArg.value == "" then []
    else RolesOfPhrase(NormalizePerm(permArg.value))
  }

  /** The phrase that grants a role id: the id itself, except that the broadcaster is called
      the streamer. */
  function PhraseFor(roleId: string): (phrase: string)
    requires roleId in RoleIds
    ensures phrase in RolePhrases
  {
    if roleId == "broadcaster" then "streamer" else roleId
  }

  /** Every role id is granted by its phrase ... */
  lemma PhraseGrantsRole(roleId: string)
    requires roleId in RoleIds
    ensures MapPermArgToRoleIds(Some(PhraseFor(roleId))) == [roleId]
  {
    var phrase := PhraseFor(roleId);
    assert NormalizePerm(phrase) == phrase by {
      LowercasePhrase(phrase);
      TrimOfTrimmed(phrase);
    }
    assert RolesOfPhrase(phrase) == [roleId];
  }

  /** The role phrases are written in lower case. */
  lemma LowercasePhrase(phrase: string)
    requires phrase in RolePhrases
    ensures ToLower(phrase) == phrase
  {
    var l := ToLower(phrase);
    assert |l| == |phrase|;
    forall i | 0 <= i < |phrase| ensures l[i] == phrase[i] {
      assert 'a' <= phrase[i] <= 'z';
    }
  }

  /** ... and by nothing that does not normalize to that phrase. */
  lemma RoleGrantedOnlyByItsPhrase(permArg: string, roleId: string)
    requires MapPermArgToRoleIds(Some(permArg)) == [roleId]
    ensures roleId in RoleIds && NormalizePerm(permArg) == PhraseFor(roleId)
  {
    var n := NormalizePerm(permArg);
    assert RolesOfPhrase(n) == [roleId];
    PhraseOfRoles(n);
  }

  /** The switch sends each role phrase to its own role and to no other. */
  lemma PhraseOfRoles(normalizedPerm: string)
    requires normalizedPerm in RolePhrases
    ensures |RolesOfPhrase(normalizedPerm)| == 1
    ensures PhraseFor(RolesOfPhrase(normalizedPerm)[0]) == normalizedPerm
  {
    GrantAllPhrasesAreNotRolePhrases();
  }

  /** A phrase that is empty once normalized grants no role. */
  lemma BlankPhraseGrantsNoRole(permArg: string)
    requires NormalizePerm(permArg) == []
    ensures MapPermArgToRoleIds(Some(permArg)) == []
  {
    assert [] !in RolePhrases;
  }

  /** The roles depend on the phrase only through its normal form. */
  lemma SameNormalFormSameRoles(a: string, b: string)
    requires NormalizePerm(a) == NormalizePerm(b)
    ensures MapPermArgToRoleIds(Some(a)) == MapPermArgToRoleIds(Some(b))
  {
    if a == "" || b == "" {
      assert NormalizePerm(a) == [];
      BlankPhraseGrantsNoRole(a);
      BlankPhraseGrantsNoRole(b);
    }
  }

  /** Letter case does not matter. */
  lemma CaseInsensitive(permArg: string)
    ensures MapPermArgToRoleIds(Some(ToLower(permArg))) == MapPermArgToRoleIds(Some(permArg))
  {
    ToLowerIdempotent(permArg);
    SameNormalFormSameRoles(ToLower(permArg), permArg);
  }

  /** Whitespace around the phrase does not matter. */
  lemma PaddingIgnored(c: char, permArg: string)
    requires IsWhitespace(c)
    ensures MapPermArgToRoleIds(Some([c] + permArg)) == MapPermArgToRoleIds(Some(permArg))
    ensures MapPermArgToRoleIds(Some(permArg + [c])) == MapPermArgToRoleIds(Some(permArg))
  {
    var lower := ToLower(permArg);
    LowerCharWhitespace(c);
    assert ToLower([c] + permArg) == [c] + lower;
    assert ToLower(permArg + [c]) == lower + [c];
    TrimSkipsLeadingWhitespace(c, lower);
    TrimSkipsTrailingWhitespace(lower, c);
    SameNormalFormSameRoles([c] + permArg, permArg);
    SameNormalFormSameRoles(permArg + [c], permArg);
  }

  /** `restrict !cmd  StReAmEr ` restricts the command to the broadcaster. */
  lemma StreamerExample(permArg: string)
    requires permArg == " StReAmEr "
    ensures MapPermArgToRoleIds(Some(permArg)) == ["broadcaster"]
  {
    var core := "StReAmEr";
    assert permArg == [' '] + (core + [' ']);
    LowerStreamer(core);
    MixedCasePaddedPhrase(' ', core, permArg);
    PhraseGrantsRole("broadcaster");
  }

  lemma LowerStreamer(core: string)
    requires core == "StReAmEr"
    ensures ToLower(core) == "streamer"
  {
    var l := ToLower(core);
    assert l[0] == 's' && l[1] == 't' && l[2] == 'r' && l[3] == 'e';
    assert l[4] == 'a' && l[5] == 'm' && l[6] == 'e' && l[7] == 'r';
  }

  lemma MixedCasePaddedPhrase(c: char, core: string, permArg: string)
    requires IsWhitespace(c) && permArg == [c] + (core + [c])
    ensures MapPermArgToRoleIds(Some(permArg)) == MapPermArgToRoleIds(Some(ToLower(core)))
  {
    PaddingIgnored(c, core + [c]);
    PaddingIgnored(c, core);
    CaseInsensitive(core);
  }
}
