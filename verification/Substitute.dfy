/** The variable loop of `Filename::substitute`: references to environment variables are
    replaced while the text is moved through a growing buffer. */
module Substitute {
  import opened Wrappers
  import opened Paths
  import opened ExpandClean

  type Env = map<string, string>

  datatype VarError =
    | Unterminated(text: string)  // "${" without "}"
    | BadSyntax                   // a "$" not followed by a name
    | NoSuchVar(name: string)

  predicate WordChar(c: char) {
    'a' <= c <= 'z' || 'A' <= c <= 'Z' || '0' <= c <= '9' || c == '_'
  }

  function WordEnd(t: string, i: nat): (e: nat)
    requires i <= |t|
    ensures i <= e <= |t|
    ensures forall k :: i <= k < e ==> WordChar(t[k])
    ensures e < |t| ==> !WordChar(t[e])
    decreases |t| - i
  {
    if i < |t| && WordChar(t[i]) then WordEnd(t, i + 1) else i
  }

  function BraceEnd(t: string, i: nat): (e: nat)
    requires i <= |t|
    ensures i <= e <= |t|
    ensures forall k :: i <= k < e ==> t[k] != '}'
    ensures e < |t| ==> t[e] == '}'
    decreases |t| - i
  {
    if i < |t| && t[i] != '}' then BraceEnd(t, i + 1) else i
  }

  /** A name and the number of characters its reference takes. */
  datatype Reference = Reference(name: string, size: nat)

  /** The reference at the start of a text that begins with one `$`. */
  function ReadReference(t: string): (r: Result<Reference, VarError>)
    requires t != ""
    ensures r.Ok? ==> 0 < r.value.size <= |t|
  {
    if |t| > 1 && t[1] == '{' then
      var e := BraceEnd(t, 2);
      if e == |t| then Err(Unterminated(t[2..e])) else Ok(Reference(t[2..e], e + 1))
    else
      var e := WordEnd(t, 1);
      if e == 1 then Err(BadSyntax) else Ok(Reference(t[1..e], e))
  }

  predicate Doubled(t: string) {
    |t| > 1 && t[0] == '$' && t[1] == '$'
  }

  function Before(front: string, r: Result<string, VarError>): Result<string, VarError> {
    match r
    case Ok(s) => Ok(front + s)
    case Err(e) => Err(e)
  }

  function Lookup(env: Env, name: string): Result<string, VarError> {
    if name in env then Ok(env[name]) else Err(NoSuchVar(name))
  }

  /** The text with its references replaced, from left to right.  Of a doubled `$` the first
      one is dropped and the second one is read again. */
  function Replace(env: Env, t: string): Result<string, VarError>
    decreases |t|
  {
    if t == "" then Ok("")
    else if t[0] != '$' then Before([t[0]], Replace(env, t[1..]))
    else if Doubled(t) then Replace(env, t[1..])
    else
      match ReadReference(t)
      case Err(e) => Err(e)
      case Ok(ref) =>
        match Lookup(env, ref.name)
        case Err(e) => Err(e)
        case Ok(value) => Before(value, Replace(env, t[ref.size..]))
  }

  /** What remains to be done is hidden from what has been written. */
  ghost predicate Pending(env: Env, name: string, buf: string, out: nat, p: nat) {
    && out <= p <= |buf|
    && Replace(env, name) == Before(buf[..out], Replace(env, buf[p..]))
  }

  lemma BeforeTwice(a: string, b: string, r: Result<string, VarError>)
    ensures Before(a, Before(b, r)) == Before(a + b, r)
  {
    if r.Ok? {
      assert a + (b + r.value) == (a + b) + r.value;
    }
  }

  /** The extent of the reference at `p`, found by moving a second position forward. */
  method ScanReference(buf: string, p0: nat) returns (r: Result<string, VarError>, p: nat)
    requires p0 < |buf| && buf[p0] == '$' && !Doubled(buf[p0..])
    ensures match ReadReference(buf[p0..])
            case Err(e) => r == Err(e)
            case Ok(ref) => r == Ok(ref.name) && p == p0 + ref.size
  {
    ghost var t := buf[p0..];
    p := p0 + 1;
    var start := p;
    if p < |buf| && buf[p] == '{' {
      p, start := p + 1, start + 1;
      while p < |buf| && buf[p] != '}'
        invariant start <= p <= |buf|
        invariant BraceEnd(t, 2) == BraceEnd(t, p - p0)
      {
        p := p + 1;
      }
      assert BraceEnd(t, 2) == p - p0 && buf[start..p] == t[2..p - p0];
      if p == |buf| {
        return Err(Unterminated(buf[start..p])), p;
      }
      r := Ok(buf[start..p]);
      p := p + 1;
    } else {
      while p < |buf| && WordChar(buf[p])
        invariant start <= p <= |buf|
        invariant WordEnd(t, 1) == WordEnd(t, p - p0)
      {
        p := p + 1;
      }
      assert WordEnd(t, 1) == p - p0 && buf[start..p] == t[1..p - p0];
      if p == start {
        return Err(BadSyntax), p;
      }
      r := Ok(buf[start..p]);
    }
  }

  /** Replaces the references in place; inserting a value moves the unread rest along. */
  method ReplaceInPlace(env: Env, name: string) returns (r: Result<string, VarError>)
    ensures r == Replace(env, name)
  {
    var buf, out: nat, p: nat := name, 0, 0;
    assert buf[..0] == "" && buf[0..] == buf;
    assert Before("", Replace(env, name)) == Replace(env, name) by {
      if Replace(env, name).Ok? {
        assert "" + Replace(env, name).value == Replace(env, name).value;
      }
    }
    while p < |buf|
      invariant Pending(env, name, buf, out, p)
      decreases |buf| - p
    {
      ghost var t, written := buf[p..], buf[..out];
      if buf[p] != '$' {
        ghost var c := buf[p];
        buf := buf[out := buf[p]];
        out, p := out + 1, p + 1;
        assert buf[p..] == t[1..] && buf[..out] == written + [c];
        BeforeTwice(written, [c], Replace(env, t[1..]));
      } else if p + 1 < |buf| && buf[p + 1] == '$' {
        p := p + 1;
        assert buf[p..] == t[1..];
      } else {
        var ref, q := ScanReference(buf, p);
        if ref.Err? {
          return Err(ref.error);
        }
        if ref.value !in env {
          return Err(NoSuchVar(ref.value));
        }
        var value := env[ref.value];
        ghost var rest := buf[q..];
        buf := buf[..out] + value + buf[out..];
        out, p := out + |value|, q + |value|;
        assert buf[p..] == rest && rest == t[ReadReference(t).value.size..];
        assert buf[..out] == written + value;
        BeforeTwice(written, value, Replace(env, rest));
      }
    }
    assert buf[p..] == "";
    assert buf[..out] + "" == buf[..out];
    r := Ok(buf[..out]);
  }

  /** The loop followed by the final clean-up of the absolute name. */
  method SubstituteIn(env: Env, name: string) returns (r: Result<string, VarError>)
    requires Absolute(name) && NUL !in name && forall v <- env.Values :: NUL !in v
    ensures match Replace(env, name)
            case Err(e) => r == Err(e)
            case Ok(s) => Absolute(s) && r == Ok(Cleaned(s, true))
  {
    r := ReplaceInPlace(env, name);
    if r.Err? {
      return;
    }
    assert Absolute(r.value);
    ReplaceNoNul(env, name);
    var s := r.value;
    var buf := new char[|s| + 1](i requires 0 <= i <= |s| => CharAt(s, i));
    TextOfString(buf[..], s);
    var size := Rewrite(buf, true);
    r := Ok(buf[..size]);
  }

  lemma {:induction false} ReplaceNoNul(env: Env, t: string)
    requires NUL !in t && (forall v <- env.Values :: NUL !in v) && Replace(env, t).Ok?
    ensures NUL !in Replace(env, t).value
    decreases |t|
  {
    if t != "" {
      if t[0] != '$' || Doubled(t) {
        ReplaceNoNul(env, t[1..]);
      } else {
        var ref := ReadReference(t).value;
        assert env[ref.name] in env.Values;
        ReplaceNoNul(env, t[ref.size..]);
      }
    }
  }

  // ----- what a reference looks like -------------------------------------------------------------

  lemma WordEndIs(t: string, i: nat, e: nat)
    requires i <= e <= |t| && (forall k :: i <= k < e ==> WordChar(t[k])) && (e < |t| ==> !WordChar(t[e]))
    ensures WordEnd(t, i) == e
    decreases e - i
  {
    if i < e {
      WordEndIs(t, i + 1, e);
    }
  }

  lemma BraceEndIs(t: string, i: nat, e: nat)
    requires i <= e <= |t| && (forall k :: i <= k < e ==> t[k] != '}') && (e < |t| ==> t[e] == '}')
    ensures BraceEnd(t, i) == e
    decreases e - i
  {
    if i < e {
      BraceEndIs(t, i + 1, e);
    }
  }

  /** The value of a variable and what is made of the text behind its reference. */
  function Valued(env: Env, name: string, rest: string): Result<string, VarError> {
    if name !in env then Err(NoSuchVar(name))
    else if Replace(env, rest).Err? then Replace(env, rest)
    else Ok(env[name] + Replace(env, rest).value)
  }

  lemma ReplaceReference(env: Env, t: string, name: string, rest: string)
    requires t != "" && t[0] == '$' && !Doubled(t) && |rest| < |t| && t[|t| - |rest|..] == rest
    requires ReadReference(t) == Ok(Reference(name, |t| - |rest|))
    ensures Replace(env, t) == Valued(env, name, rest)
  {
    hide ReadReference;
  }

  /** `${NAME}`: everything up to the first brace is the name, and the brace goes with it. */
  lemma BraceReference(env: Env, name: string, rest: string)
    requires '}' !in name
    ensures Replace(env, "${" + name + "}" + rest) == Valued(env, name, rest)
  {
    var t := "${" + name + "}" + rest;
    var e := 2 + |name|;
    assert t[2..e] == name && t[e + 1..] == rest && t[1] == '{' && t[e] == '}';
    assert forall k :: 2 <= k < e ==> t[k] == name[k - 2];
    BraceEndIs(t, 2, e);
    ReplaceReference(env, t, name, rest);
  }

  predicate Wordlike(c: char) {
    'A' <= c <= 'Z' || 'a' <= c <= 'z' || '0' <= c <= '9' || c == '_'
  }

  /** `$NAME`: the name is made of letters, digits and underscores, as many as there are. */
  lemma WordReference(env: Env, name: string, rest: string)
    requires name != "" && (forall c <- name :: Wordlike(c)) && (rest != "" ==> !Wordlike(rest[0]))
    ensures Replace(env, "$" + name + rest) == Valued(env, name, rest)
  {
    var t := "$" + name + rest;
    var e := 1 + |name|;
    assert t[1..e] == name && t[e..] == rest;
    assert forall k :: 1 <= k < e ==> t[k] == name[k - 1] && t[k] in name;
    assert rest != "" ==> t[e] == rest[0];
    WordEndIs(t, 1, e);
    ReplaceReference(env, t, name, rest);
  }

  /** `${` without the other brace. */
  lemma OpenBrace(env: Env, rest: string)
    requires '}' !in rest
    ensures Replace(env, "${" + rest) == Err(Unterminated(rest))
  {
    var t := "${" + rest;
    assert t[2..|t|] == rest && t[1] == '{';
    assert forall k :: 2 <= k < |t| ==> t[k] == rest[k - 2];
    BraceEndIs(t, 2, |t|);
  }

  /** `$` with no name behind it. */
  lemma NoName(env: Env, rest: string)
    requires rest != "" ==> !Wordlike(rest[0]) && rest[0] != '{' && rest[0] != '$'
    ensures Replace(env, "$" + rest) == Err(BadSyntax)
  {
    var t := "$" + rest;
    assert rest != "" ==> t[1] == rest[0];
    WordEndIs(t, 1, 1);
  }

  /** Of two `$` the first one is dropped. */
  lemma TwoDollars(env: Env, rest: string)
    ensures Replace(env, "$$" + rest) == Replace(env, "$" + rest)
  {
    assert ("$$" + rest)[1..] == "$" + rest;
  }

  /** All other characters stand for themselves. */
  lemma OtherCharacter(env: Env, c: char, rest: string)
    requires c != '$'
    ensures Replace(env, "") == Ok("")
    ensures Replace(env, [c] + rest) ==
            if Replace(env, rest).Err? then Replace(env, rest) else Ok([c] + Replace(env, rest).value)
  {
    assert ([c] + rest)[1..] == rest;
  }

  // ----- values are never read again -----------------------------------------------------------

  /** A text is cut into pieces before any variable is looked up. */
  datatype Piece = Literal(c: char) | Variable(name: string) | Broken(error: VarError)

  function Pieces(t: string): seq<Piece>
    decreases |t|
  {
    if t == "" then []
    else if t[0] != '$' then [Literal(t[0])] + Pieces(t[1..])
    else if Doubled(t) then Pieces(t[1..])
    else
      match ReadReference(t)
      case Err(e) => [Broken(e)]
      case Ok(ref) => [Variable(ref.name)] + Pieces(t[ref.size..])
  }

  predicate Fails(env: Env, p: Piece) {
    p.Broken? || (p.Variable? && p.name !in env)
  }

  function ErrorOf(p: Piece): VarError
    requires !p.Literal?
  {
    if p.Broken? then p.error else NoSuchVar(p.name)
  }

  function Shown(env: Env, p: Piece): string
    requires !Fails(env, p)
  {
    if p.Literal? then [p.c] else env[p.name]
  }

  function ShownAll(env: Env, ps: seq<Piece>): string
    requires forall i :: 0 <= i < |ps| ==> !Fails(env, ps[i])
  {
    if ps == [] then "" else Shown(env, ps[0]) + ShownAll(env, ps[1..])
  }

  /** The first piece that fails, or the end. */
  function FirstFailure(env: Env, ps: seq<Piece>): (k: nat)
    ensures k <= |ps| && (k < |ps| ==> Fails(env, ps[k]))
    ensures forall i :: 0 <= i < k ==> !Fails(env, ps[i])
  {
    if ps == [] || Fails(env, ps[0]) then 0 else 1 + FirstFailure(env, ps[1..])
  }

  /** Every piece shows its value as it is, or the first piece that fails gives the error. */
  ghost predicate ShowsAll(env: Env, r: Result<string, VarError>, ps: seq<Piece>) {
    var k := FirstFailure(env, ps);
    if k == |ps| then r == Ok(ShownAll(env, ps)) else r == Err(ErrorOf(ps[k]))
  }

  /** One more good piece in front. */
  lemma ShowsPiece(env: Env, p: Piece, r: Result<string, VarError>, ps: seq<Piece>)
    requires !Fails(env, p) && ShowsAll(env, r, ps)
    ensures ShowsAll(env, Before(Shown(env, p), r), [p] + ps)
  {
    var all := [p] + ps;
    assert all[0] == p && all[1..] == ps;
    assert FirstFailure(env, all) == 1 + FirstFailure(env, ps);
  }

  /** The result is made of the pieces of the original text alone. */
  lemma {:induction false} ReplaceShowsPieces(env: Env, t: string)
    ensures ShowsAll(env, Replace(env, t), Pieces(t))
    decreases |t|
  {
    if t != "" {
      if Doubled(t) {
        ReplaceShowsPieces(env, t[1..]);
      } else if t[0] != '$' {
        ReplaceShowsPieces(env, t[1..]);
        ShowsPiece(env, Literal(t[0]), Replace(env, t[1..]), Pieces(t[1..]));
      } else if ReadReference(t).Err? {
        assert Fails(env, Pieces(t)[0]);
      } else {
        var ref := ReadReference(t).value;
        ReplaceShowsPieces(env, t[ref.size..]);
        if ref.name in env {
          ShowsPiece(env, Variable(ref.name), Replace(env, t[ref.size..]), Pieces(t[ref.size..]));
        } else {
          assert Fails(env, Pieces(t)[0]);
        }
      }
    }
  }

  // ----- the doubled dollar sign ------------------------------------------------------------------

  /** What the documentation asks for: a doubled `$` is replaced with a single one. */
  function Documented(env: Env, t: string): Result<string, VarError>
    decreases |t|
  {
    if t == "" then Ok("")
    else if t[0] != '$' then Before([t[0]], Documented(env, t[1..]))
    else if Doubled(t) then Before("$", Documented(env, t[2..]))
    else
      match ReadReference(t)
      case Err(e) => Err(e)
      case Ok(ref) =>
        match Lookup(env, ref.name)
        case Err(e) => Err(e)
        case Ok(value) => Before(value, Documented(env, t[ref.size..]))
  }

  /** Reading from the left meets a doubled `$` before it meets an ill-formed reference. */
  predicate MeetsDouble(t: string)
    decreases |t|
  {
    if t == "" then false
    else if t[0] != '$' then MeetsDouble(t[1..])
    else if Doubled(t) then true
    else
      match ReadReference(t)
      case Err(_) => false
      case Ok(ref) => MeetsDouble(t[ref.size..])
  }

  lemma {:induction false} NoDoubleAgrees(env: Env, t: string)
    requires !MeetsDouble(t)
    ensures Replace(env, t) == Documented(env, t)
    decreases |t|
  {
    if t != "" {
      if t[0] != '$' {
        NoDoubleAgrees(env, t[1..]);
      } else if ReadReference(t).Ok? {
        NoDoubleAgrees(env, t[ReadReference(t).value.size..]);
      }
    }
  }

  /** The loop itself never writes a `$`; only a value can bring one. */
  lemma {:induction false} ReplaceWritesNoDollar(env: Env, t: string)
    requires forall v <- env.Values :: '$' !in v
    ensures Replace(env, t).Ok? ==> '$' !in Replace(env, t).value
    decreases |t|
  {
    if t != "" {
      if t[0] != '$' || Doubled(t) {
        ReplaceWritesNoDollar(env, t[1..]);
      } else if ReadReference(t).Ok? {
        var ref := ReadReference(t).value;
        ReplaceWritesNoDollar(env, t[ref.size..]);
        assert ref.name in env ==> env[ref.name] in env.Values;
      }
    }
  }

  lemma {:induction false} DocumentedWritesDollar(env: Env, t: string)
    requires MeetsDouble(t)
    ensures Documented(env, t).Ok? ==> '$' in Documented(env, t).value
    decreases |t|
  {
    if Doubled(t) {
      assert Documented(env, t).Ok? ==> Documented(env, t).value[0] == '$';
    } else if t[0] != '$' {
      DocumentedWritesDollar(env, t[1..]);
    } else {
      DocumentedWritesDollar(env, t[ReadReference(t).value.size..]);
    }
  }

  /** Where no value contains a `$` and one of the two gives a result, they agree exactly when
      reading never meets a doubled `$`. */
  lemma DoubleDollarWithoutDollars(env: Env, t: string)
    requires forall v <- env.Values :: '$' !in v
    requires Replace(env, t).Ok? || Documented(env, t).Ok?
    ensures Replace(env, t) == Documented(env, t) <==> !MeetsDouble(t)
  {
    if MeetsDouble(t) {
      ReplaceWritesNoDollar(env, t);
      DocumentedWritesDollar(env, t);
    } else {
      NoDoubleAgrees(env, t);
    }
  }

  /** The references read as documented are well-formed. */
  predicate Readable(t: string)
    decreases |t|
  {
    if t == "" then true
    else if t[0] != '$' then Readable(t[1..])
    else if Doubled(t) then Readable(t[2..])
    else
      match ReadReference(t)
      case Err(_) => false
      case Ok(ref) => Readable(t[ref.size..])
  }

  /** The variables that are then looked up, with an empty value each. */
  function Blank(t: string): (env: Env)
    requires Readable(t)
    ensures forall name <- env :: env[name] == ""
    decreases |t|
  {
    if t == "" then map[]
    else if t[0] != '$' then Blank(t[1..])
    else if Doubled(t) then Blank(t[2..])
    else
      var ref := ReadReference(t).value;
      Blank(t[ref.size..])[ref.name := ""]
  }

  lemma {:induction false} ReadableIsDocumented(env: Env, t: string)
    ensures Documented(env, t).Ok? <==> Readable(t) && Blank(t).Keys <= env.Keys
    decreases |t|
  {
    if t != "" {
      if t[0] != '$' {
        ReadableIsDocumented(env, t[1..]);
      } else if Doubled(t) {
        ReadableIsDocumented(env, t[2..]);
      } else if ReadReference(t).Ok? {
        ReadableIsDocumented(env, t[ReadReference(t).value.size..]);
      }
    }
  }

  /** Whatever the variables are, the loop gives the result the documentation gives. */
  ghost predicate AsDocumented(t: string) {
    forall env :: Documented(env, t).Ok? ==> Replace(env, t) == Documented(env, t)
  }

  /** That is so exactly for the texts in which no doubled `$` is met, and for those the
      documentation itself gives no result. */
  lemma DoubleDollarExactly(t: string)
    ensures AsDocumented(t) <==> !MeetsDouble(t) || !Readable(t)
  {
    if !Readable(t) {
      forall env
        ensures !Documented(env, t).Ok?
      {
        ReadableIsDocumented(env, t);
      }
    } else if MeetsDouble(t) {
      ReadableIsDocumented(Blank(t), t);
      DoubleDollarWithoutDollars(Blank(t), t);
    } else {
      forall env
        ensures Replace(env, t) == Documented(env, t)
      {
        NoDoubleAgrees(env, t);
      }
    }
  }

  /** `$$x` should give `$x`; the loop gives the value of `x`, or fails if there is none. */
  lemma DoubleDollarExample(env: Env, value: string)
    requires "x" in env && env["x"] == value
    ensures Replace(env, "$$x") == Ok(value)
    ensures Documented(env, "$$x") == Ok("$x")
    ensures Replace(env - {"x"}, "$$x") == Err(NoSuchVar("x"))
  {
    var t := "$$x";
    assert t[1..] == "$x" && t[2..] == "x";
    assert ReadReference("$x") == Ok(Reference("x", 2)) by {
      assert WordEnd("$x", 2) == 2 && WordEnd("$x", 1) == 2;
      assert "$x"[1..2] == "x";
    }
    assert "$x"[2..] == "" && "x"[1..] == "";
    assert Documented(env, "x") == Before("x", Ok("")) && "x" + "" == "x";
    assert "$" + "x" == t[1..];
    assert value + "" == value;
  }
}
