/** The string rules of `AccountController`: the university a new account
    gets from its email domain, the role it gets from the email's local part,
    and where `Login` and `Welcome` send a signed-in user. */
module Registration {
  import opened Common

  datatype Role = Admin | Educator | Student

  /** `UserRoles.ToString()`. */
  function RoleName(r: Role): string {
    match r
    case Admin => "Admin"
    case Educator => "Educator"
    case Student => "Student"
  }

  /** The domain table of `Register`, in its listed (and enumeration) order. */
  const DomainTable: seq<(string, string)> := [
    ("ksu.edu.sa", "King Saud University"),
    ("kau.edu.sa", "King Abdulaziz University"),
    ("kfu.edu.sa", "King Faisal University"),
    ("uqu.edu.sa", "Um Al-Qura University"),
    ("qu.edu.sa", "Qassim University"),
    ("imamu.edu.sa", "Imam Muhammad bin Saud University"),
    ("psu.edu.sa", "Prince Sultan University"),
    ("twu.edu.sa", "Taif University"),
    ("pnu.edu.sa", "Princess Nourah University"),
    ("kku.edu.sa", "King Khalid University"),
    ("saudigov.edu.sa", "Saudi Government Universities"),
    ("najah.edu.sa", "Najran University"),
    ("ju.edu.sa", "Jazan University"),
    ("mu.edu.sa", "Makkah University"),
    ("shms.edu.sa", "Shaqra University"),
    ("u.edu.sa", "University of Dammam"),
    ("huf.edu.sa", "Hail University")
  ]

  const UnknownUniversity: string := "Unknown University"

  /** Position of the first entry whose key is a suffix of the domain. */
  function FirstSuffixMatch(domain: string, table: seq<(string, string)>): (r: Option<nat>)
    ensures r.Some? ==> r.value < |table| && EndsWith(domain, table[r.value].0)
    ensures r.Some? ==> forall j :: 0 <= j < r.value ==> !EndsWith(domain, table[j].0)
    ensures r.None? <==> forall j :: 0 <= j < |table| ==> !EndsWith(domain, table[j].0)
    decreases |table|
  {
    if |table| == 0 then None
    else if EndsWith(domain, table[0].0) then Some(0)
    else
      match FirstSuffixMatch(domain, table[1..])
      case None => None
      case Some(k) => Some(k + 1)
  }

  /** `FirstOrDefault(x => domain.EndsWith(x.Key)).Value ?? "Unknown
      University"` over a table of (key, university) pairs: the university
      of the first entry whose key ends the domain. */
  function LookupUniversity(domain: string, table: seq<(string, string)>): (u: string)
    ensures (forall j :: 0 <= j < |table| ==> !EndsWith(domain, table[j].0)) ==> u == UnknownUniversity
    ensures forall i :: 0 <= i < |table| && EndsWith(domain, table[i].0) &&
                        (forall j :: 0 <= j < i ==> !EndsWith(domain, table[j].0))
                        ==> u == table[i].1
  {
    match FirstSuffixMatch(domain, table)
    case None => UnknownUniversity
    case Some(i) => table[i].1
  }

  function UniversityForDomain(domain: string): string {
    LookupUniversity(domain, DomainTable)
  }

  /** The suffix test has no label boundary: a longer domain ending in a
      key gets that key's university. */
  lemma SuffixHasNoBoundary()
    ensures UniversityForDomain("xksu.edu.sa") == "King Saud University"
  {
    assert EndsWith("xksu.edu.sa", DomainTable[0].0);
  }

  /** The generic key "u.edu.sa" only catches domains no earlier key
      matched. */
  lemma GenericKeyIsLastResort()
    ensures UniversityForDomain("stu.edu.sa") == "University of Dammam"
  {
    assert EndsWith("stu.edu.sa", DomainTable[15].0);
    forall j | 0 <= j < 15 ensures !EndsWith("stu.edu.sa", DomainTable[j].0) {
      assert "stu.edu.sa"[0..3] == "stu";
    }
  }

  /** Why a registration is refused after the account was created. */
  datatype RegisterError =
    | MalformedEmail   // `Split('@')[1]` throws without an '@'
    | NoRoleSuffix     // "Email does not match any known role suffix."

  datatype Registration = Registration(university: string, role: Role)

  /** The role the local part's suffix selects, compared without case. */
  function RoleForLocalPart(local: string): (r: Option<Role>)
    ensures r == Some(Admin) <==> EndsWithIgnoreCase(local, ".Ad")
    ensures r == Some(Educator) <==> !EndsWithIgnoreCase(local, ".Ad") && EndsWithIgnoreCase(local, ".Ed")
    ensures r == Some(Student) <==>
              !EndsWithIgnoreCase(local, ".Ad") && !EndsWithIgnoreCase(local, ".Ed") &&
              EndsWithIgnoreCase(local, ".Sa")
  {
    if EndsWithIgnoreCase(local, ".Ad") then Some(Admin)
    else if EndsWithIgnoreCase(local, ".Ed") then Some(Educator)
    else if EndsWithIgnoreCase(local, ".Sa") then Some(Student)
    else None
  }

  /** The part of `Register` after the account is created: the lower-cased
      text after the first '@' (up to a second one) picks the university,
      then the text before it picks the role. */
  function Register(email: string): (r: Result<Registration, RegisterError>)
    ensures r == Failure(MalformedEmail) <==> '@' !in email
    ensures r == Failure(NoRoleSuffix) <==> '@' in email && RoleForLocalPart(Split(email, '@')[0]).None?
    ensures r.Success? ==>
              && r.value.university == UniversityForDomain(ToLower(Split(email, '@')[1]))
              && Some(r.value.role) == RoleForLocalPart(Split(email, '@')[0])
  {
    var parts := Split(email, '@');
    if |parts| < 2 then Failure(MalformedEmail)
    else
      var university := UniversityForDomain(ToLower(parts[1]));
      match RoleForLocalPart(parts[0])
      case None => Failure(NoRoleSuffix)
      case Some(role) => Success(Registration(university, role))
  }

  /** The three role suffixes, lower-cased. */
  lemma SuffixesLowered()
    ensures ToLower(".Ad") == ".ad" && ToLower(".Ed") == ".ed" && ToLower(".Sa") == ".sa"
  {
  }

  /** The role suffix is matched without case, and the domain is
      lower-cased before the lookup. */
  lemma RegisterExample()
    ensures Register("sara.ED@KSU.EDU.SA") == Success(Registration("King Saud University", Educator))
  {
    SplitExample("sara.ED@KSU.EDU.SA", "sara.ED", "KSU.EDU.SA");
    KsuLowered();
    EducatorSuffix();
  }

  lemma KsuLowered()
    ensures UniversityForDomain(ToLower("KSU.EDU.SA")) == "King Saud University"
  {
    assert ToLower("KSU.EDU.SA") == "ksu.edu.sa";
    assert EndsWith("ksu.edu.sa", DomainTable[0].0);
  }

  lemma EducatorSuffix()
    ensures RoleForLocalPart("sara.ED") == Some(Educator)
  {
    SuffixesLowered();
    assert ToLower("sara.ED") == "sara.ed";
    assert "sara.ed"[4..] == ".ed";
    assert "sara.ed"[4..] != ".ad" by { assert "sara.ed"[4..][1] == 'e'; }
  }

  /** A local part without a role suffix is refused. */
  lemma RegisterWithoutSuffix()
    ensures Register("sara@ksu.edu.sa") == Failure(NoRoleSuffix)
  {
    SplitExample("sara@ksu.edu.sa", "sara", "ksu.edu.sa");
    NoSuffixSara();
  }

  lemma NoSuffixSara()
    ensures RoleForLocalPart("sara") == None
  {
    SuffixesLowered();
    assert ToLower("sara") == "sara";
    assert "sara"[1..] != ".ad" by { assert "sara"[1..][0] == 'a'; }
    assert "sara"[1..] != ".ed" by { assert "sara"[1..][0] == 'a'; }
    assert "sara"[1..] != ".sa" by { assert "sara"[1..][0] == 'a'; }
  }

  /** The role depends on the local part alone: the domain never changes
      it. */
  lemma RoleFromLocalPartOnly(local: string, d1: string, d2: string)
    requires '@' !in local && '@' !in d1 && '@' !in d2
    ensures Register(local + "@" + d1).Success? == Register(local + "@" + d2).Success?
    ensures Register(local + "@" + d1).Success? ==>
              Register(local + "@" + d1).value.role == Register(local + "@" + d2).value.role
  {
    SplitExample(local + "@" + d1, local, d1);
    SplitExample(local + "@" + d2, local, d2);
  }

  lemma SplitExample(email: string, local: string, domain: string)
    requires email == local + "@" + domain && '@' !in local && '@' !in domain
    ensures Split(email, '@') == [local, domain]
  {
    assert email[|local|] == '@';
    assert email[..|local|] == local;
    assert email[|local| + 1..] == domain;
  }

  // ---------------------------------------------------------------------
  // Redirects

  datatype Destination = EducatorPage | AdminIndex | StudentsIndex | WelcomePage | HomeIndex

  /** After a successful `Login`: Educator first, then Admin, then
      Student, else the welcome page. */
  function LoginRedirect(roles: seq<string>): (d: Destination)
    ensures d == EducatorPage <==> "Educator" in roles
    ensures d == AdminIndex <==> "Educator" !in roles && "Admin" in roles
    ensures d == StudentsIndex <==> "Educator" !in roles && "Admin" !in roles && "Student" in roles
    ensures d == WelcomePage <==> "Educator" !in roles && "Admin" !in roles && "Student" !in roles
  {
    if RoleName(Educator) in roles then EducatorPage
    else if RoleName(Admin) in roles then AdminIndex
    else if RoleName(Student) in roles then StudentsIndex
    else WelcomePage
  }

  datatype WelcomeResult = ShowWelcome | Challenge | RedirectTo(destination: Destination)

  /** `Welcome`: an anonymous visitor sees the page; a signed-in visitor the
      identity layer cannot resolve is challenged; otherwise Admin first,
      then Educator, then Student, else the home page. */
  function Welcome(authenticated: bool, roles: Option<seq<string>>): (w: WelcomeResult)
    ensures !authenticated <==> w == ShowWelcome
    ensures w == Challenge <==> authenticated && roles.None?
    ensures w == RedirectTo(AdminIndex) <==> authenticated && roles.Some? && "Admin" in roles.value
    ensures w == RedirectTo(EducatorPage) <==>
              authenticated && roles.Some? && "Admin" !in roles.value && "Educator" in roles.value
    ensures w == RedirectTo(StudentsIndex) <==>
              authenticated && roles.Some? && "Admin" !in roles.value && "Educator" !in roles.value &&
              "Student" in roles.value
    ensures w == RedirectTo(HomeIndex) <==>
              authenticated && roles.Some? && "Admin" !in roles.value && "Educator" !in roles.value &&
              "Student" !in roles.value
  {
    if !authenticated then ShowWelcome
    else
      match roles
      case None => Challenge
      case Some(rs) =>
        if RoleName(Admin) in rs then RedirectTo(AdminIndex)
        else if RoleName(Educator) in rs then RedirectTo(EducatorPage)
        else if RoleName(Student) in rs then RedirectTo(StudentsIndex)
        else RedirectTo(HomeIndex)
  }

  /** The two actions disagree for a user holding both Admin and Educator,
      and agree for every user holding exactly one known role. */
  lemma LoginAndWelcomeDisagree(roles: seq<string>)
    ensures "Admin" in roles && "Educator" in roles ==>
              LoginRedirect(roles) == EducatorPage && Welcome(true, Some(roles)) == RedirectTo(AdminIndex)
    ensures ("Admin" in roles) != ("Educator" in roles) ==>
              Welcome(true, Some(roles)) == RedirectTo(LoginRedirect(roles))
  {
  }
}
