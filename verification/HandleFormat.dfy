/** Handle names (crates/ephemera-social/src/handle_validation.rs). */
module HandleFormat {
  import opened Wrappers

  const MIN_HANDLE_LEN: nat := 3
  const MAX_HANDLE_LEN: nat := 20
  const RESERVED_HANDLES := {"admin", "administrator", "ephemera", "help", "info", "mod", "moderator", "official",
                             "root", "staff", "support", "system", "team", "trust", "security"}

  datatype FormatError =
    | TooShort(len: nat)
    | TooLong(len: nat)
    | InvalidCharacter(ch: char, pos: nat)
    | StartsWithUnderscore
    | EndsWithUnderscore
    | ConsecutiveUnderscores
    | StartsWithDigit
    | ReservedName(name: string)

  /** Bytes of a character in UTF-8; lengths are counted in bytes. */
  function Utf8Size(c: char): (n: nat)
    ensures 1 <= n <= 4
  {
    var x := c as int;
    if x < 0x80 then 1 else if x < 0x800 then 2 else if x < 0x1_0000 then 3 else 4
  }

  function Utf8Len(s: string): (n: nat)
    ensures n >= |s| && (n == 0 <==> s == [])
  {
    if s == [] then 0 else Utf8Len(s[..|s| - 1]) + Utf8Size(s[|s| - 1])
  }

  predicate IsDigit(c: char) { '0' <= c <= '9' }

  predicate IsAllowed(c: char) { 'a' <= c <= 'z' || IsDigit(c) || c == '_' }

  predicate AllAllowed(s: string) { forall i | 0 <= i < |s| :: IsAllowed(s[i]) }

  predicate HasDoubleUnderscore(s: string) { exists i | 0 <= i < |s| - 1 :: s[i] == '_' && s[i + 1] == '_' }

  /** The first rule a name breaks, in the order they are checked. */
  function FormatProblem(name: string): (r: Option<FormatError>) {
    var len := Utf8Len(name);
    if len < MIN_HANDLE_LEN then Some(TooShort(len))
    else if len > MAX_HANDLE_LEN then Some(TooLong(len))
    else
      match FirstBad(name)
      case Some(pos) => Some(InvalidCharacter(name[pos], pos))
      case None =>
        if name[0] == '_' then Some(StartsWithUnderscore)
        else if name[|name| - 1] == '_' then Some(EndsWithUnderscore)
        else if HasDoubleUnderscore(name) then Some(ConsecutiveUnderscores)
        else if IsDigit(name[0]) then Some(StartsWithDigit)
        else if name in RESERVED_HANDLES then Some(ReservedName(name))
        else None
  }

  function FirstBad(s: string): (r: Option<nat>)
    ensures r.None? <==> AllAllowed(s)
    ensures r.Some? ==> r.value < |s| && !IsAllowed(s[r.value]) && AllAllowed(s[..r.value])
  {
    if s == [] then None
    else
      var k := |s| - 1;
      match FirstBad(s[..k])
      case Some(i) => assert s[..k][..i] == s[..i]; Some(i)
      case None => if IsAllowed(s[k]) then None else Some(k)
  }

  /** What the documentation asks of a name. */
  predicate ValidFormat(name: string) {
    && 3 <= |name| <= 20
    && (forall i | 0 <= i < |name| :: 'a' <= name[i] <= 'z' || '0' <= name[i] <= '9' || name[i] == '_')
    && 'a' <= name[0] <= 'z' && name[|name| - 1] != '_'
    && (forall i | 0 <= i < |name| - 1 :: name[i] != '_' || name[i + 1] != '_')
    && name !in RESERVED_HANDLES
  }

  lemma {:induction false} AllowedIsAscii(s: string)
    requires AllAllowed(s)
    ensures Utf8Len(s) == |s|
    decreases |s|
  {
    if s != [] {
      AllowedIsAscii(s[..|s| - 1]);
      assert IsAllowed(s[|s| - 1]);
    }
  }

  /** Exactly the names that meet the documented rules pass, although lengths are counted in bytes. */
  lemma FormatProblemExact(name: string)
    ensures FormatProblem(name).None? <==> ValidFormat(name)
  {
    if AllAllowed(name) {
      AllowedIsAscii(name);
    }
  }

  /** One byte up to U+007F, two up to U+07FF, three up to U+FFFF and four beyond, each at least the one before. */
  lemma Utf8Steps(c: char)
    ensures Utf8Size(c) >= 2 <==> c as int >= 0x80
    ensures Utf8Size(c) >= 3 <==> c as int >= 0x800
    ensures Utf8Size(c) >= 4 <==> c as int >= 0x1_0000
  {}

  /** Which rule is reported: each only when the rules before it are met. */
  lemma FormatErrors(name: string)
    ensures var p, len := FormatProblem(name), Utf8Len(name);
            var fits := 3 <= len <= 20;
            && (p == Some(TooShort(len)) <==> len < 3) && (p == Some(TooLong(len)) <==> len > 20)
            && (forall i | 0 <= i < |name| :: p == Some(InvalidCharacter(name[i], i)) <==>
                  fits && !IsAllowed(name[i]) && forall j | 0 <= j < i :: IsAllowed(name[j]))
            && (p == Some(StartsWithUnderscore) <==> fits && AllAllowed(name) && name[0] == '_')
            && (p == Some(EndsWithUnderscore) <==> fits && AllAllowed(name) && name[0] != '_' && name[|name| - 1] == '_')
            && (p == Some(StartsWithDigit) <==>
                  fits && AllAllowed(name) && '0' <= name[0] <= '9' && name[|name| - 1] != '_' && !HasDoubleUnderscore(name))
            && (p == Some(ConsecutiveUnderscores) <==>
                  fits && AllAllowed(name) && name[0] != '_' && name[|name| - 1] != '_' && HasDoubleUnderscore(name))
            && (p == Some(ReservedName(name)) <==>
                  fits && name in {"admin", "administrator", "ephemera", "help", "info", "mod", "moderator", "official", "root",
                                   "staff", "support", "system", "team", "trust", "security"})
  {
    hide Utf8Len, HasDoubleUnderscore;
    ReservedAreWellFormed(name);
    var bad := FirstBad(name);
    assert bad.Some? ==> forall j | 0 <= j < bad.value :: name[..bad.value][j] == name[j];
  }

  lemma ReservedAreWellFormed(name: string)
    ensures name in RESERVED_HANDLES ==>
              AllAllowed(name) && 'a' <= name[0] <= 'z' && name[|name| - 1] != '_' && !HasDoubleUnderscore(name)
  {}

  method ValidateHandleFormat(name: string) returns (r: Result<(), FormatError>)
    ensures r == match FormatProblem(name) case Some(e) => Err(e) case None => Ok(())
  {
    var len := Utf8Len(name);
    if len < MIN_HANDLE_LEN { return Err(TooShort(len)); }
    if len > MAX_HANDLE_LEN { return Err(TooLong(len)); }
    for pos := 0 to |name|
      invariant AllAllowed(name[..pos])
    {
      if !IsAllowed(name[pos]) {
        FirstBadIs(name, pos);
        return Err(InvalidCharacter(name[pos], pos));
      }
    }
    assert name[..|name|] == name;
    if name[0] == '_' { return Err(StartsWithUnderscore); }
    if name[|name| - 1] == '_' { return Err(EndsWithUnderscore); }
    if HasDoubleUnderscore(name) { return Err(ConsecutiveUnderscores); }
    if IsDigit(name[0]) { return Err(StartsWithDigit); }
    if name in RESERVED_HANDLES { return Err(ReservedName(name)); }
    return Ok(());
  }

  lemma FirstBadIs(s: string, pos: nat)
    requires pos < |s| && AllAllowed(s[..pos]) && !IsAllowed(s[pos])
    ensures FirstBad(s) == Some(pos)
  {
    assert forall j | 0 <= j < pos :: s[..pos][j] == s[j];
  }
}
