/** UserInfoDetails: the Spring Security view of a UserInfo, with the comma-separated roles turned
    into an ordered list of granted authorities. */
module UserDetails {
  import opened Wrappers
  import opened Model
  import opened JavaStrings

  /** The message of the IllegalArgumentException thrown by SimpleGrantedAuthority's constructor. */
  const AUTHORITY_TEXT_REQUIRED := "A granted authority textual representation is required"

  /** A granted authority holding its textual representation. */
  datatype GrantedAuthority = SimpleGrantedAuthority(role: string)

  /** The fields that the constructor sets once; the getters only return them. */
  datatype UserInfoDetails = UserInfoDetails(name: string, password: string, authorities: seq<GrantedAuthority>)
  {
    function GetAuthorities(): seq<GrantedAuthority> { authorities }
    function GetPassword(): string { password }
    function GetUsername(): string { name }
  }

  /** The textual representations of a list of authorities, in order. */
  function Roles(a: seq<GrantedAuthority>): (r: seq<string>)
    ensures |r| == |a|
    ensures forall k :: 0 <= k < |a| ==> r[k] == a[k].role
  {
    if |a| == 0 then [] else [a[0].role] + Roles(a[1..])
  }

  /** Every role has text, so that SimpleGrantedAuthority accepts each of them. */
  predicate AllHaveText(roles: seq<string>)
  {
    forall k :: 0 <= k < |roles| ==> HasText(roles[k])
  }

  /** new SimpleGrantedAuthority(role): refuses a role without text. */
  function NewAuthority(role: string): (r: Result<GrantedAuthority>)
    ensures r.Ok? <==> HasText(role)
    ensures r.Ok? ==> r.value.role == role
    ensures r.Err? ==> r.error == AUTHORITY_TEXT_REQUIRED
  {
    if HasText(role) then Ok(SimpleGrantedAuthority(role)) else Err(AUTHORITY_TEXT_REQUIRED)
  }

  /** roles.stream().map(SimpleGrantedAuthority::new).collect(toList()): the first role without text
      stops the stream with the constructor's exception. */
  function NewAuthorities(roles: seq<string>): (r: Result<seq<GrantedAuthority>>)
    ensures r.Ok? <==> AllHaveText(roles)
    ensures r.Ok? ==> Roles(r.value) == roles
    ensures r.Err? ==> r.error == AUTHORITY_TEXT_REQUIRED
  {
    if |roles| == 0 then Ok([])
    else
      match NewAuthority(roles[0])
      case Err(e) => Err(e)
      case Ok(a) =>
        match NewAuthorities(roles[1..])
        case Err(e) => Err(e)
        case Ok(rest) =>
          assert roles == [roles[0]] + roles[1..];
          Ok([a] + rest)
  }

  /** new UserInfoDetails(userInfo): keeps the username and the stored password, and makes one
      authority per piece of roles.split(","), in order. Reading the UserInfo value cannot change it. */
  function NewUserInfoDetails(userInfo: UserInfo): (r: Result<UserInfoDetails>)
    ensures r.Ok? <==> AllHaveText(Split(userInfo.roles, ','))
    ensures r.Err? ==> r.error == AUTHORITY_TEXT_REQUIRED
    ensures r.Ok? ==> r.value.GetUsername() == userInfo.username
    ensures r.Ok? ==> r.value.GetPassword() == userInfo.password
    ensures r.Ok? ==> Roles(r.value.GetAuthorities()) == Split(userInfo.roles, ',')
  {
    var name := userInfo.username;
    var password := userInfo.password;
    match NewAuthorities(Split(userInfo.roles, ','))
    case Err(e) => Err(e)
    case Ok(authorities) => Ok(UserInfoDetails(name, password, authorities))
  }

  /** No authority contains a comma. */
  lemma AuthoritiesHaveNoComma(userInfo: UserInfo)
    requires NewUserInfoDetails(userInfo).Ok?
    ensures var a := NewUserInfoDetails(userInfo).value.GetAuthorities();
            forall k :: 0 <= k < |a| ==> Excludes(a[k].role, ',')
  {
    var a := NewUserInfoDetails(userInfo).value.GetAuthorities();
    assert Roles(a) == Split(userInfo.roles, ',');
    forall k | 0 <= k < |a| ensures Excludes(a[k].role, ',') {
      assert a[k].role == Split(userInfo.roles, ',')[k];
    }
  }

  /** When roles does not end with a comma, the authorities joined with commas give roles back, and
      there is one more authority than roles has commas. */
  lemma AuthoritiesRoundTrip(userInfo: UserInfo)
    requires NewUserInfoDetails(userInfo).Ok?
    requires |userInfo.roles| == 0 || userInfo.roles[|userInfo.roles| - 1] != ','
    ensures var a := NewUserInfoDetails(userInfo).value.GetAuthorities();
            Join(Roles(a), ',') == userInfo.roles && |a| == Count(userInfo.roles, ',') + 1
  {
    SplitWithoutTrailingSeparator(userInfo.roles, ',');
  }

  /** The authorities are exactly the comma-free, text-bearing roles whose join is roles: a roles
      string without a trailing comma is recovered from its authorities and nothing else joins to it. */
  lemma AuthoritiesDetermined(userInfo: UserInfo, parts: seq<string>)
    requires |parts| >= 1
    requires forall k :: 0 <= k < |parts| ==> Excludes(parts[k], ',')
    requires AllHaveText(parts)
    requires Join(parts, ',') == userInfo.roles
    ensures NewUserInfoDetails(userInfo).Ok?
    ensures Roles(NewUserInfoDetails(userInfo).value.GetAuthorities()) == parts
  {
    var roles := userInfo.roles;
    assert Split(roles, ',') == parts by {
      assert parts[|parts| - 1] != "" by {
        assert HasText(parts[|parts| - 1]);
      }
      SplitOfJoin(parts, ',');
    }
  }

  /** A trailing comma is ignored: roles such as "USER,ADMIN," give the authorities of "USER,ADMIN". */
  lemma TrailingCommaIgnored(userInfo: UserInfo, parts: seq<string>)
    requires |parts| >= 1
    requires forall k :: 0 <= k < |parts| ==> Excludes(parts[k], ',')
    requires AllHaveText(parts)
    requires userInfo.roles == Join(parts, ',') + ","
    ensures NewUserInfoDetails(userInfo).Ok?
    ensures Roles(NewUserInfoDetails(userInfo).value.GetAuthorities()) == parts
  {
    assert parts[|parts| - 1] != "" by {
      assert HasText(parts[|parts| - 1]);
    }
    SplitDropsTrailingSeparator(parts, ',');
  }

  /** An empty roles string splits into the single piece "", which SimpleGrantedAuthority refuses. */
  lemma EmptyRolesRefused(userInfo: UserInfo)
    requires userInfo.roles == ""
    ensures NewUserInfoDetails(userInfo) == Err(AUTHORITY_TEXT_REQUIRED)
  {
    assert Split("", ',') == [""];
  }

  /** Roles made only of commas split into no pieces, so the user gets no authority at all. */
  lemma CommasOnlyGiveNoAuthorities(userInfo: UserInfo)
    requires |userInfo.roles| > 0
    requires forall k :: 0 <= k < |userInfo.roles| ==> userInfo.roles[k] == ','
    ensures NewUserInfoDetails(userInfo).Ok?
    ensures NewUserInfoDetails(userInfo).value.GetAuthorities() == []
  {
    SplitEmpty(userInfo.roles, ',');
  }

  /** A doubled comma leaves an empty piece in the middle, which SimpleGrantedAuthority refuses. */
  lemma InnerEmptyRoleRefused(userInfo: UserInfo, a: string, b: string)
    requires HasText(b) && Excludes(a, ',') && Excludes(b, ',')
    requires userInfo.roles == a + ",," + b
    ensures NewUserInfoDetails(userInfo) == Err(AUTHORITY_TEXT_REQUIRED)
  {
    var parts := [a, "", b];
    assert Join(parts, ',') == userInfo.roles by {
      assert parts == [a] + ["", b];
      JoinCons(a, ["", b], ',');
      JoinCons("", [b], ',');
    }
    assert b != "" by {
      assert HasText(b);
    }
    SplitOfJoin(parts, ',');
    assert !HasText(parts[1]);
  }
}
