/** The `checkRights` helper of both controller bases: the access attribute
    a controller derives from its own class name, and the decision taken on
    it. */
module Rights {
  import opened Wrappers
  import opened Strings
  import opened Decimal
  import opened Entities
  import opened Access
  import MainVoter
  import LegacyMainVoter

  const PHP_INT_MIN: int := -PHP_INT_MAX - 1

  /** The range of a PHP `int` argument. */
  predicate PhpInt(n: int) {
    PHP_INT_MIN <= n <= PHP_INT_MAX
  }

  /** The short class name with every `Controller` replaced by `s`:
      `App\Chore\Controller\UserController` becomes `Users`. */
  function ControllerName(cls: string): string {
    ReplaceAll(LastSegment(cls, '\\'), "Controller", "s")
  }

  /** The attribute of the current base: `ACCESS_<name>_<access>`. */
  function RightsAttribute(cls: string, access: int): string {
    Format(ControllerName(cls), DecimalOf(access))
  }

  /** The attribute of the legacy base, which has no `ACCESS_` prefix. */
  function LegacyRightsAttribute(cls: string, access: int): string {
    ControllerName(cls) + "_" + DecimalOf(access)
  }

  lemma NoUnderscoreInDecimal(n: int)
    ensures '_' !in DecimalOf(n)
  {
    if n >= 0 {
      DecimalOfRoundTrip(n);
      DigitsExclude(DecimalOf(n), '_');
    } else {
      DigitsExclude(NatDigits(-n), '_');
    }
  }

  /** A class `<namespace>\<base>Controller` whose base holds neither a
      backslash nor `Controller` yields the name `<base>s`. */
  lemma ControllerClassName(namespace: string, base: string)
    requires '\\' !in base && !Contains(base, "Controller")
    ensures ControllerName(namespace + "\\" + base + "Controller") == base + "s"
  {
    var short := base + "Controller";
    assert '\\' !in short;
    assert namespace + "\\" + base + "Controller" == namespace + ['\\'] + short;
    LastSegmentOfQualified(namespace, '\\', short);
    FirstCharUniqueBorderless("Controller");
    ReplaceSplits(base, "Controller", "", "s");
    ReplaceAbsent(base, "Controller", "s");
    assert base + "Controller" + "" == short;
  }

  /** The two registered controllers name themselves as the registry does. */
  lemma RegisteredControllerNames(namespace: string)
    ensures ControllerName(namespace + "\\UserController") == "Users"
    ensures ControllerName(namespace + "\\RoleController") == "Roles"
  {
    if Contains("User", "Controller") {
      ContainsFits("User", "Controller");
    }
    if Contains("Role", "Controller") {
      ContainsFits("Role", "Controller");
    }
    ControllerClassName(namespace, "User");
    ControllerClassName(namespace, "Role");
    assert namespace + "\\UserController" == namespace + "\\" + "User" + "Controller";
    assert namespace + "\\RoleController" == namespace + "\\" + "Role" + "Controller";
  }

  /** The current voter decides on the derived attribute exactly when the
      access is non-negative and the derived name is underscore-free and
      registered. */
  lemma RightsAttributeSupported(cls: string, access: int)
    ensures MainVoter.Supports(RightsAttribute(cls, access))
        <==> 0 <= access && '_' !in ControllerName(cls) && Registered(ControllerName(cls))
  {
    var c := ControllerName(cls);
    var d := DecimalOf(access);
    var attribute := RightsAttribute(cls, access);
    NoUnderscoreInDecimal(access);
    DecimalOfRoundTrip(access);
    if '_' !in c {
      MainVoter.SplitFormat(c, d);
    } else {
      assert attribute == "ACCESS" + ['_'] + c + ['_'] + d;
      SplitLength(attribute, '_');
      OccurrencesAppend("ACCESS" + ['_'] + c + ['_'], d, '_');
      OccurrencesAppend("ACCESS" + ['_'] + c, ['_'], '_');
      OccurrencesAppend("ACCESS" + ['_'], c, '_');
      OccurrencesPositive(c, '_');
      OccurrencesPositive("ACCESS" + ['_'], '_');
      assert Occurrences(['_'], '_') == 1;
      assert |Split(attribute, '_')| >= 4;
    }
  }

  /** Decoding the derived attribute gives back the name, lower-cased, and
      the access level. */
  lemma RightsRoundTrip(cls: string, access: int)
    requires MainVoter.Supports(RightsAttribute(cls, access)) && access <= PHP_INT_MAX
    ensures MainVoter.ParseRequest(RightsAttribute(cls, access))
         == Request(Lower(ControllerName(cls)), access)
  {
    RightsAttributeSupported(cls, access);
    DecimalOfRoundTrip(access);
    MainVoter.ParseFormat(ControllerName(cls), DecimalOf(access));
  }

  /** `checkRights` of the current base: true when `denyAccessUnlessGranted`
      lets the request through. Only the access voter decides on `ACCESS_`
      attributes, and Symfony denies when every voter abstains. */
  function CheckRights(st: Store, user: User, cls: string, access: int, now: int): (allowed: bool)
    requires Valid(st) && UserRefs(st, user) && PhpInt(access)
    ensures allowed <==> (0 <= access && '_' !in ControllerName(cls) && Registered(ControllerName(cls))
                          && Granted(st, user, Request(Lower(ControllerName(cls)), access), now))
  {
    var attribute := RightsAttribute(cls, access);
    RightsAttributeSupported(cls, access);
    if MainVoter.Supports(attribute) then
      RightsRoundTrip(cls, access);
      MainVoter.Decision(st, user, attribute, now) == MainVoter.AccessGranted
    else
      false
  }

  /** A prefix that ends in a separator absent from it cannot extend past
      the first separator of the string. */
  lemma PrefixBeforeSeparator(p: string, sep: char, c: string, rest: string)
    requires sep !in p && p + [sep] <= c + [sep] + rest
    ensures p <= c
  {
    var s := c + [sep] + rest;
    assert forall k :: 0 <= k < |p| ==> s[k] == p[k] && p[k] != sep;
    assert s[|c|] == sep;
    assert |p| <= |c|;
    assert forall k :: 0 <= k < |p| ==> p[k] == s[k] == c[k];
  }

  /** The legacy attribute is only ever decided on for classes whose short
      name, and so the derived name, starts with `ACCESS_`: a name that is
      exactly `ACCESS` gives an attribute of two pieces only. */
  lemma LegacySupportedNeedsAccessPrefix(cls: string, access: int)
    requires MainVoter.Supports(LegacyRightsAttribute(cls, access))
    ensures MainVoter.PREFIX <= ControllerName(cls)
    ensures MainVoter.PREFIX <= LastSegment(cls, '\\')
  {
    var c := ControllerName(cls);
    var d := DecimalOf(access);
    var attribute := LegacyRightsAttribute(cls, access);
    assert attribute == c + ['_'] + d;
    assert "ACCESS" + ['_'] == MainVoter.PREFIX;
    PrefixBeforeSeparator("ACCESS", '_', c, d);
    if c == "ACCESS" {
      NoUnderscoreInDecimal(access);
      SplitCons("ACCESS", '_', d);
      SplitNoSep(d, '_');
      assert false;
    }
    assert c[6] == attribute[6] == MainVoter.PREFIX[6];
    assert MainVoter.PREFIX == c[..7];
    ReplaceKeepsForeignPrefix(LastSegment(cls, '\\'), "Controller", "s", MainVoter.PREFIX);
  }

  /** `checkRights` of the legacy base. */
  function LegacyCheckRights(st: Store, user: User, cls: string, access: int, now: int): (allowed: bool)
    requires Valid(st) && UserRefs(st, user) && PhpInt(access)
    ensures allowed ==> MainVoter.PREFIX <= LastSegment(cls, '\\')
  {
    var attribute := LegacyRightsAttribute(cls, access);
    if LegacyMainVoter.Supports(attribute) then
      LegacySupportedNeedsAccessPrefix(cls, access);
      LegacyMainVoter.Decision(st, user, attribute, now) == MainVoter.AccessGranted
    else
      false
  }

  /** A class whose short name does not start with `ACCESS_` is denied
      everything by the legacy base. */
  lemma LegacyDeniesClass(st: Store, user: User, cls: string, access: int, now: int)
    requires Valid(st) && UserRefs(st, user) && PhpInt(access)
    requires !(MainVoter.PREFIX <= LastSegment(cls, '\\'))
    ensures !LegacyCheckRights(st, user, cls, access, now)
  {
  }

  /** The legacy base denies the registered controllers everything, whoever
      asks and whatever their assignments. */
  lemma LegacyDeniesRegistered(st: Store, user: User, namespace: string, access: int, now: int)
    requires Valid(st) && UserRefs(st, user) && PhpInt(access)
    ensures !LegacyCheckRights(st, user, namespace + "\\UserController", access, now)
    ensures !LegacyCheckRights(st, user, namespace + "\\RoleController", access, now)
  {
    assert namespace + "\\UserController" == namespace + ['\\'] + "UserController";
    assert namespace + "\\RoleController" == namespace + ['\\'] + "RoleController";
    LastSegmentOfQualified(namespace, '\\', "UserController");
    LastSegmentOfQualified(namespace, '\\', "RoleController");
    LegacyDeniesClass(st, user, namespace + "\\UserController", access, now);
    LegacyDeniesClass(st, user, namespace + "\\RoleController", access, now);
  }
}
