/** The CORS settings of the service application: whether CORS is switched
    on, and the ordered list of allowed origins, read from the process
    environment. */
module Cors {
  import opened Text

  const EnableVariable := "ENABLE_CORS"
  const PublicHostVariable := "PUBLIC_HOST"
  const OriginsVariable := "CORS_ALLOWED_ORIGINS"
  const DefaultPublicHost := "http://localhost:8000"

  /** `os.environ.get(key, default)` */
  function EnvGet(env: map<string, string>, key: string, default: string): string {
    if key in env then env[key] else default
  }

  /** `os.environ.get("ENABLE_CORS", "false").lower() == "true"` */
  predicate CorsEnabled(env: map<string, string>) {
    Lower(EnvGet(env, EnableVariable, "false")) == "true"
  }

  /** The allowed origins: the public host, then, when CORS_ALLOWED_ORIGINS is
      non-empty, each comma-separated piece of it with surrounding whitespace
      stripped. */
  function AllowedOrigins(env: map<string, string>): seq<string> {
    var extra := EnvGet(env, OriginsVariable, "");
    var pieces := if extra != "" then Split(extra, ",") else [];
    [EnvGet(env, PublicHostVariable, DefaultPublicHost)] + seq(|pieces|, k requires 0 <= k < |pieces| => Strip(pieces[k]))
  }

  /** The module-level configuration step: `enable_cors`, and, when it holds,
      `allowed_origins` built from the public host and then extended with the
      stripped pieces; the list is empty when CORS is off. */
  method ConfigureCors(env: map<string, string>) returns (enabled: bool, origins: seq<string>)
    ensures enabled == CorsEnabled(env)
    ensures origins == if enabled then AllowedOrigins(env) else []
  {
    enabled := Lower(EnvGet(env, EnableVariable, "false")) == "true";
    origins := [];
    if enabled {
      var publicHost := EnvGet(env, PublicHostVariable, DefaultPublicHost);
      origins := [publicHost];
      var additional := EnvGet(env, OriginsVariable, "");
      if additional != "" {
        var pieces := Split(additional, ",");
        var i := 0;
        while i < |pieces|
          invariant 0 <= i <= |pieces|
          invariant |origins| == i + 1 && origins[0] == publicHost
          invariant forall k :: 0 <= k < i ==> origins[k + 1] == Strip(pieces[k])
        {
          origins := origins + [Strip(pieces[i])];
          i := i + 1;
        }
      }
    }
  }

  /** Unset, ENABLE_CORS defaults to "false": CORS is off. */
  lemma CorsOffByDefault(env: map<string, string>)
    requires EnableVariable !in env
    ensures !CorsEnabled(env)
  {
    assert Lower("false")[0] == 'f';
  }

  /** CORS is on exactly when ENABLE_CORS spells "true" in any mix of cases. */
  lemma CorsEnabledIff(env: map<string, string>)
    ensures var v := EnvGet(env, EnableVariable, "false");
      CorsEnabled(env) <==>
        |v| == 4 && v[0] in "tT" && v[1] in "rR" && v[2] in "uU" && v[3] in "eE"
  {
    var v := EnvGet(env, EnableVariable, "false");
    if |v| == 4 && v[0] in "tT" && v[1] in "rR" && v[2] in "uU" && v[3] in "eE" {
      assert Lower(v) == "true";
    }
    if CorsEnabled(env) {
      var l := Lower(v);
      assert |l| == |v| == 4;
      assert l[0] == 't' && l[1] == 'r' && l[2] == 'u' && l[3] == 'e';
      assert l[0] == LowerChar(v[0]) && l[1] == LowerChar(v[1]);
      assert l[2] == LowerChar(v[2]) && l[3] == LowerChar(v[3]);
    }
  }

  /** The first allowed origin is PUBLIC_HOST, or http://localhost:8000 when
      that is unset. */
  lemma PublicHostFirst(env: map<string, string>)
    ensures |AllowedOrigins(env)| >= 1
    ensures AllowedOrigins(env)[0] ==
      if PublicHostVariable in env then env[PublicHostVariable] else "http://localhost:8000"
  {
  }

  /** An unset or empty CORS_ALLOWED_ORIGINS leaves the public host alone. */
  lemma NoExtraOrigins(env: map<string, string>)
    requires EnvGet(env, OriginsVariable, "") == ""
    ensures AllowedOrigins(env) == [EnvGet(env, PublicHostVariable, DefaultPublicHost)]
  {
  }

  /** A non-empty CORS_ALLOWED_ORIGINS adds one entry per comma-separated
      piece (one more than it has commas), in order, each the stripped piece;
      the pieces rejoined with commas give the variable back. */
  lemma ExtraOriginsInOrder(env: map<string, string>)
    requires EnvGet(env, OriginsVariable, "") != ""
    ensures var extra := EnvGet(env, OriginsVariable, "");
      var pieces := Split(extra, ",");
      && |AllowedOrigins(env)| == Count(extra, ',') + 2
      && (forall k :: 0 <= k < |pieces| ==> AllowedOrigins(env)[k + 1] == Strip(pieces[k]))
      && (forall k :: 0 <= k < |pieces| ==> ',' !in pieces[k])
      && Join(pieces, ",") == extra
  {
    var extra := EnvGet(env, OriginsVariable, "");
    var pieces := Split(extra, ",");
    assert "," == [','];
    SplitCharCount(extra, ',');
    assert |pieces| == Count(extra, ',') + 1;
    assert |AllowedOrigins(env)| == 1 + |pieces|;
    JoinSplit(extra, ",");
    SplitPiecesFree(extra, ",");
    forall k | 0 <= k < |pieces| ensures ',' !in pieces[k] {
      ContainsChar(pieces[k], ',');
    }
  }

  /** The pieces of "o, o," for an origin `o` without commas. */
  lemma SplitRepeatedOrigin(o: string)
    requires ',' !in o
    ensures Split(o + ", " + o + ",", ",") == [o, " " + o, ""]
  {
    var second := " " + o;
    var rest := second + [','] + "";
    assert o + ", " + o + "," == o + [','] + rest;
    assert Split(o + [','] + rest, ",") == [o] + Split(rest, ",") by {
      SplitAtFirst(o, rest, ',');
    }
    assert Split(rest, ",") == [second, ""] by {
      assert ',' !in second;
      SplitAtFirst(second, "", ',');
      assert Split("", ",") == [""];
    }
  }

  /** Empty pieces and repeated origins are kept: for an origin `o` without
      commas or surrounding whitespace, "o, o," gives the public host followed
      by `o`, `o` and "". */
  lemma DuplicatesAndEmptyPiecesKept(env: map<string, string>, o: string)
    requires ',' !in o && Strip(o) == o
    requires EnvGet(env, OriginsVariable, "") == o + ", " + o + ","
    ensures AllowedOrigins(env) == [EnvGet(env, PublicHostVariable, DefaultPublicHost), o, o, ""]
  {
    SplitRepeatedOrigin(o);
    var pieces := [o, " " + o, ""];
    assert Strip(pieces[1]) == o by {
      assert pieces[1][1..] == o;
    }
    assert Strip(pieces[2]) == "";
    var stripped := seq(|pieces|, k requires 0 <= k < |pieces| => Strip(pieces[k]));
    assert stripped == [o, o, ""];
  }
}
