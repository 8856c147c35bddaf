/**
 * The username and password policy that account creation enforces unless its checks are
 * skipped: seven rules, tried in a fixed order, the first failing one reported.
 */
module AccountPolicy {
  import opened Eav

  /** The policy fields of the server configuration. */
  datatype PolicyConfig = PolicyConfig(
    usernameMinLength: int,
    usernameMaxLength: int,
    passwordMinLength: int,
    passwordUseNumbers: bool,
    passwordUseBigLittleSymbols: bool,
    passwordUseSpecialChars: bool)

  /** The rules, named by the error code each one reports. */
  datatype PolicyError =
    | NameTooShort        // ERR_NAME_TOO_SHORT
    | NameTooLong         // ERR_NAME_TOO_LONG
    | PassTooShort        // ERR_PASS_TOO_SHORT
    | PassNoNums          // ERR_PASS_NO_NUMS
    | PassNoBigChars      // ERR_PASS_NO_BIG_CHARS
    | PassNoSmallChars    // ERR_PASS_NO_SMALL_CHARS
    | PassNoSpecialChars  // ERR_PASS_NO_SPECIAL_CHARS

  /** The position of a rule in the chain. */
  function Rank(e: PolicyError): nat {
    match e
    case NameTooShort => 0
    case NameTooLong => 1
    case PassTooShort => 2
    case PassNoNums => 3
    case PassNoBigChars => 4
    case PassNoSmallChars => 5
    case PassNoSpecialChars => 6
  }

  /** `/[0-9]/`, `/[A-Z]/`, `/[a-z]/` and `/\W/` each test for one character of a class. */
  predicate IsDigit(c: char) { '0' <= c <= '9' }
  predicate IsUpper(c: char) { 'A' <= c <= 'Z' }
  predicate IsLower(c: char) { 'a' <= c <= 'z' }
  predicate IsWordChar(c: char) { IsDigit(c) || IsUpper(c) || IsLower(c) || c == '_' }

  predicate HasDigit(s: string) { exists i :: 0 <= i < |s| && IsDigit(s[i]) }
  predicate HasUpper(s: string) { exists i :: 0 <= i < |s| && IsUpper(s[i]) }
  predicate HasLower(s: string) { exists i :: 0 <= i < |s| && IsLower(s[i]) }
  predicate HasNonWord(s: string) { exists i :: 0 <= i < |s| && !IsWordChar(s[i]) }

  /** Whether a name and password pass one rule under a configuration. */
  predicate Passes(cfg: PolicyConfig, rule: PolicyError, name: string, pass: string) {
    match rule
    case NameTooShort => cfg.usernameMinLength <= |name|
    case NameTooLong => |name| <= cfg.usernameMaxLength
    case PassTooShort => cfg.passwordMinLength <= |pass|
    case PassNoNums => !cfg.passwordUseNumbers || HasDigit(pass)
    case PassNoBigChars => !cfg.passwordUseBigLittleSymbols || HasUpper(pass)
    case PassNoSmallChars => !cfg.passwordUseBigLittleSymbols || HasLower(pass)
    case PassNoSpecialChars => !cfg.passwordUseSpecialChars || HasNonWord(pass)
  }

  /** The chain of checks: the first rule, in rank order, that the name or password breaks. */
  function CheckPolicy(cfg: PolicyConfig, name: string, pass: string): (r: Option<PolicyError>)
    ensures r.None? ==> forall e :: Passes(cfg, e, name, pass)
    ensures r.Some? ==> !Passes(cfg, r.value, name, pass)
    ensures r.Some? ==> forall e :: Rank(e) < Rank(r.value) ==> Passes(cfg, e, name, pass)
  {
    if cfg.usernameMinLength > |name| then Some(NameTooShort)
    else if cfg.usernameMaxLength < |name| then Some(NameTooLong)
    else if cfg.passwordMinLength > |pass| then Some(PassTooShort)
    else if cfg.passwordUseNumbers && !HasDigit(pass) then Some(PassNoNums)
    else if cfg.passwordUseBigLittleSymbols && !HasUpper(pass) then Some(PassNoBigChars)
    else if cfg.passwordUseBigLittleSymbols && !HasLower(pass) then Some(PassNoSmallChars)
    else if cfg.passwordUseSpecialChars && !HasNonWord(pass) then Some(PassNoSpecialChars)
    else None
  }
}
