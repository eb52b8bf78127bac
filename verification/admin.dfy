/**
 The administrator registry (`AdminRegistry` in user.py): a map from the
 normalised user name to the administrator's record.
 */
module Admins {
  import opened Text

  datatype Admin = Admin(username: string, password: string)

  type Registry = map<string, Admin>

  /** A registry with no administrators. */
  function Empty(): Registry {
    map[]
  }

  /** Every entry sits under the key of its own stored name, that name is
      non-empty and stripped, and its password is non-empty. */
  predicate WellFormed(reg: Registry) {
    forall k | k in reg ::
      && k == Key(reg[k].username)
      && reg[k].username != [] && Strip(reg[k].username) == reg[k].username
      && reg[k].password != []
  }

  /** `signup`: the updated registry and whether the account was created. */
  function Signup(reg: Registry, username: string, password: string): (r: (Registry, bool))
    ensures !r.1 ==> r.0 == reg
    ensures r.1 <==> Strip(username) != [] && password != [] && Key(username) !in reg
    ensures r.1 ==> Key(username) in r.0 && r.0[Key(username)] == Admin(Strip(username), password)
    ensures r.1 ==> r.0.Keys == reg.Keys + {Key(username)} && |r.0| == |reg| + 1
    ensures r.1 ==> forall k | k in reg :: k in r.0 && r.0[k] == reg[k]
  {
    KeyEmpty(username);
    var key := Key(username);
    if key == [] || password == [] then (reg, false)
    else if key in reg then (reg, false)
    else (reg[key := Admin(Strip(username), password)], true)
  }

  /** `login`: succeeds exactly when an account exists under the normalised
      name and its password matches character for character. */
  function Login(reg: Registry, username: string, password: string): (r: bool)
    ensures r ==> Key(username) in reg && reg[Key(username)].password == password
    ensures Key(username) in reg && reg[Key(username)].password == password ==> r
  {
    var key := Key(username);
    key in reg && reg[key].password == password
  }

  /** `has_any_admin`. */
  function HasAnyAdmin(reg: Registry): (r: bool)
    ensures r <==> exists k :: k in reg
  {
    assert forall k :: k in reg ==> |reg| > 0;
    |reg| > 0
  }

  /** A successful signup keeps the registry well formed. */
  lemma SignupPreservesWellFormed(reg: Registry, username: string, password: string)
    requires WellFormed(reg)
    ensures WellFormed(Signup(reg, username, password).0)
  {
    var (reg', ok) := Signup(reg, username, password);
    if ok {
      var key := Key(username);
      var a := Admin(Strip(username), password);
      assert reg' == reg[key := a];
      assert key == Key(a.username) by { KeyOfStrip(username); }
      assert Strip(a.username) == a.username by { StripIdempotent(username); }
      forall k | k in reg'
        ensures k == Key(reg'[k].username)
        ensures reg'[k].username != [] && Strip(reg'[k].username) == reg'[k].username
        ensures reg'[k].password != []
      {
        if k != key {
          assert reg'[k] == reg[k];
        }
      }
    }
  }

  /** After a successful signup the same credentials log in. */
  lemma SignupThenLogin(reg: Registry, username: string, password: string)
    requires Signup(reg, username, password).1
    ensures Login(Signup(reg, username, password).0, username, password)
  {
  }

  /** Login ignores case and surrounding whitespace in the user name. */
  lemma LoginNormalizesName(reg: Registry, username: string, password: string)
    ensures Login(reg, Key(username), password) == Login(reg, username, password)
  {
    KeyIdempotent(username);
  }

  /** A well-formed registry admits no login with an empty password. */
  lemma NoEmptyPasswordLogin(reg: Registry, username: string)
    requires WellFormed(reg)
    ensures !Login(reg, username, [])
  {
  }

  /** The registry after a sequence of signup attempts, and the outcome of each. */
  function SignupAll(reg: Registry, attempts: seq<(string, string)>): (r: (Registry, seq<bool>))
    ensures |r.1| == |attempts|
    decreases |attempts|
  {
    if attempts == [] then (reg, [])
    else
      var (reg1, ok) := Signup(reg, attempts[0].0, attempts[0].1);
      var (reg2, oks) := SignupAll(reg1, attempts[1..]);
      (reg2, [ok] + oks)
  }

  /** Starting from any registry, the final one has an administrator
      exactly when the initial one did or some attempt succeeded. */
  lemma {:induction false} SignupAllHasAdmin(reg: Registry, attempts: seq<(string, string)>)
    ensures HasAnyAdmin(SignupAll(reg, attempts).0) <==> HasAnyAdmin(reg) || true in SignupAll(reg, attempts).1
    decreases |attempts|
  {
    if attempts != [] {
      var (reg1, ok) := Signup(reg, attempts[0].0, attempts[0].1);
      SignupAllHasAdmin(reg1, attempts[1..]);
      var (reg2, oks) := SignupAll(reg1, attempts[1..]);
      assert SignupAll(reg, attempts).1 == [ok] + oks;
      assert ok ==> HasAnyAdmin(reg1);
      assert !ok ==> reg1 == reg;
      assert HasAnyAdmin(reg) ==> HasAnyAdmin(reg1);
    }
  }

  /** `has_any_admin` is true exactly when at least one signup has succeeded. */
  lemma HasAdminIffSomeSignup(attempts: seq<(string, string)>)
    ensures HasAnyAdmin(SignupAll(Empty(), attempts).0) <==> true in SignupAll(Empty(), attempts).1
  {
    SignupAllHasAdmin(Empty(), attempts);
  }
}
