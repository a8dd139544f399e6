/** The pure part of the asset definitions built from the configuration:
    turning discipline names into asset names (`_make_dagster_name`) and
    resolving each dependency code to the name of the asset it points at.
    The transliteration `unidecode_expect_ascii` is a parameter, `translit`;
    on ASCII text it is the identity. */
module Assets {
  import opened PyStr
  import opened Catalog

  /** The default `max_length` of `_make_dagster_name`. */
  const MaxNameLength := 63

  /** The replacement for every character outside the allowed class. */
  const Replacement := '_'

  /** The regular-expression class `[a-zA-z0-9_.-]` as written. The range
      `A-z` runs from 'A' to 'z' and so also admits `[`, `\`, `]`, `^`, `_`
      and the backquote; `a-z` adds nothing to it. */
  predicate InNameClass(c: char)
  {
    || ('a' <= c <= 'z')
    || ('A' <= c <= 'z')
    || ('0' <= c <= '9')
    || c == '_' || c == '.' || c == '-'
  }

  /** The class as written is the documented alphabet (ASCII letters, digits,
      `_`, `.`, `-`) plus the five ASCII punctuation characters between 'Z' and 'a'. */
  lemma NameClassMembers(c: char)
    ensures InNameClass(c) <==>
              || ('a' <= c <= 'z') || ('A' <= c <= 'Z') || ('0' <= c <= '9')
              || c == '_' || c == '.' || c == '-'
              || c == '[' || c == '\\' || c == ']' || c == '^' || c == '`'
  {
  }

  predicate IsAscii(s: string)
  {
    forall c :: c in s ==> c as int < 128
  }

  /** `translit` leaves ASCII text unchanged, as `unidecode_expect_ascii` does. */
  ghost predicate FixesAscii(translit: string -> string)
  {
    forall s :: IsAscii(s) ==> translit(s) == s
  }

  /** `re.sub(r"[^a-zA-z0-9_.-]", "_", s)`: every character outside the class
      becomes `_`, every other stays where it is. */
  function Sanitize(s: string): (r: string)
    ensures |r| == |s|
    ensures forall i :: 0 <= i < |s| ==> InNameClass(r[i])
    ensures forall i :: 0 <= i < |s| && InNameClass(s[i]) ==> r[i] == s[i]
    ensures forall i :: 0 <= i < |s| && !InNameClass(s[i]) ==> r[i] == Replacement
  {
    if s == [] then []
    else [if InNameClass(s[0]) then s[0] else Replacement] + Sanitize(s[1..])
  }

  /** Text already inside the class passes through unchanged. */
  lemma SanitizeFixesClass(s: string)
    requires forall i :: 0 <= i < |s| ==> InNameClass(s[i])
    ensures Sanitize(s) == s
  {
  }

  /** Replacing twice is replacing once. */
  lemma SanitizeIdempotent(s: string)
    ensures Sanitize(Sanitize(s)) == Sanitize(s)
  {
    SanitizeFixesClass(Sanitize(s));
  }

  /** `if len(name) > max_length: name = name[:max_length]`. A longer name is
      cut to its first `maxLength` characters; a name that fits is untouched.
      A negative bound cuts from the end, as Python slicing does. */
  function Truncate(name: string, maxLength: int): (r: string)
    ensures |r| <= |name| && r == name[..|r|]
    ensures |name| <= maxLength ==> r == name
    ensures 0 <= maxLength < |name| ==> r == name[..maxLength]
    ensures 0 <= maxLength ==> |r| <= maxLength
  {
    if |name| > maxLength then SliceTo(name, maxLength) else name
  }

  /** `_make_dagster_name(name, max_length)`: truncate, strip, transliterate,
      then replace every character outside the class. Whatever `translit`
      does, the result uses only characters of the class. */
  function MakeDagsterName(translit: string -> string, name: string, maxLength: int): (r: string)
    ensures forall i :: 0 <= i < |r| ==> InNameClass(r[i])
  {
    Sanitize(translit(Strip(Truncate(name, maxLength))))
  }

  /** Stripping and truncating keep ASCII text ASCII. */
  lemma StripTruncateAscii(name: string, maxLength: int)
    requires IsAscii(name)
    ensures IsAscii(Strip(Truncate(name, maxLength)))
  {
    var t := Truncate(name, maxLength);
    assert forall c :: c in t ==> c in name by {
      assert t == name[..|t|];
    }
    StripChars(t);
  }

  /** On ASCII input the name is exactly as long as the stripped, truncated
      name, and so never longer than `maxLength`. */
  lemma NameLength(translit: string -> string, name: string, maxLength: int)
    requires FixesAscii(translit) && IsAscii(name)
    ensures |MakeDagsterName(translit, name, maxLength)| == |Strip(Truncate(name, maxLength))|
    ensures 0 <= maxLength ==> |MakeDagsterName(translit, name, maxLength)| <= maxLength
  {
    StripTruncateAscii(name, maxLength);
  }

  /** Every character of the class is ASCII and none of them is whitespace. */
  lemma ClassIsAsciiNonSpace(s: string)
    requires forall i :: 0 <= i < |s| ==> InNameClass(s[i])
    ensures IsAscii(s)
    ensures |s| > 0 ==> !IsSpace(s[0]) && !IsSpace(s[|s| - 1])
  {
  }

  /** A valid name is a fixed point: making a name of a made name changes
      nothing, for any non-negative bound, given a transliteration that
      leaves ASCII alone. */
  lemma MakeDagsterNameIdempotent(translit: string -> string, name: string, maxLength: int)
    requires FixesAscii(translit) && IsAscii(name) && 0 <= maxLength
    ensures MakeDagsterName(translit, MakeDagsterName(translit, name, maxLength), maxLength)
            == MakeDagsterName(translit, name, maxLength)
  {
    var m := MakeDagsterName(translit, name, maxLength);
    NameLength(translit, name, maxLength);
    assert Truncate(m, maxLength) == m;
    ClassIsAsciiNonSpace(m);
    StripTrimmed(m);
    SanitizeFixesClass(m);
  }

  /** The asset name of a discipline: `_make_dagster_name(config["name"])`. */
  function AssetName(translit: string -> string, record: Record): (r: string)
    ensures forall i :: 0 <= i < |r| ==> InNameClass(r[i])
  {
    MakeDagsterName(translit, record.name, MaxNameLength)
  }

  /** The lambda mapping a dependency code to an asset name:
      `config.get(code, {}).get("name", "") or code`, then made a name. A
      code that is not a key, or whose record has an empty name, stands for
      itself. */
  function DepName(translit: string -> string, config: map<string, Record>, code: string): (r: string)
    ensures forall i :: 0 <= i < |r| ==> InNameClass(r[i])
  {
    var target := if code in config && config[code].name != "" then config[code].name else code;
    MakeDagsterName(translit, target, MaxNameLength)
  }

  /** A dependency on a key with a non-empty name resolves to the very name
      the depended-on discipline's asset gets. */
  lemma DepNameIsAssetName(translit: string -> string, config: map<string, Record>, code: string)
    requires code in config && config[code].name != ""
    ensures DepName(translit, config, code) == AssetName(translit, config[code])
  {
  }

  /** A code that is not a key, or whose record has an empty name, falls
      back to the code itself, made a name like any other. */
  lemma DepNameFallback(translit: string -> string, config: map<string, Record>, code: string)
    requires code !in config || config[code].name == ""
    ensures DepName(translit, config, code) == MakeDagsterName(translit, code, MaxNameLength)
  {
  }

  /** An unresolved code that is already a valid name (as the seven-character
      catalog codes are) is kept verbatim. */
  lemma UnresolvedCodeKept(translit: string -> string, config: map<string, Record>, code: string)
    requires FixesAscii(translit)
    requires code !in config || config[code].name == ""
    requires 0 < |code| <= MaxNameLength
    requires forall i :: 0 <= i < |code| ==> InNameClass(code[i])
    ensures DepName(translit, config, code) == code
  {
    ClassIsAsciiNonSpace(code);
    StripTrimmed(code);
    SanitizeFixesClass(code);
  }

  /** `set(map(f, xs))`. */
  function ImageSet(f: string -> string, xs: seq<string>): (r: set<string>)
    ensures forall n :: n in r <==> exists t :: 0 <= t < |xs| && f(xs[t]) == n
  {
    if xs == [] then {}
    else
      var r := {f(xs[0])} + ImageSet(f, xs[1..]);
      assert forall n :: n in r ==> exists t :: 0 <= t < |xs| && f(xs[t]) == n by {
        forall n | n in r
          ensures exists t :: 0 <= t < |xs| && f(xs[t]) == n
        {
          if n != f(xs[0]) {
            var t :| 0 <= t < |xs| - 1 && f(xs[1..][t]) == n;
            assert xs[1..][t] == xs[t + 1];
          }
        }
      }
      assert forall t :: 0 <= t < |xs| ==> f(xs[t]) in r by {
        forall t | 0 <= t < |xs|
          ensures f(xs[t]) in r
        {
          if t > 0 {
            assert xs[1..][t - 1] == xs[t];
          }
        }
      }
      r
  }

  /** The `deps` of an asset: `set(map(lambda, config["deps"]))`, the set of
      names the dependency codes resolve to. */
  function DepNames(translit: string -> string, config: map<string, Record>, deps: seq<string>): (r: set<string>)
    ensures forall n :: n in r <==> exists t :: 0 <= t < |deps| && DepName(translit, config, deps[t]) == n
  {
    ImageSet(code => DepName(translit, config, code), deps)
  }

  /** The set depends only on which codes occur: duplicates collapse and the
      order of `deps` is irrelevant. */
  lemma DepNamesOnlyElements(translit: string -> string, config: map<string, Record>, a: seq<string>, b: seq<string>)
    requires forall x :: x in a <==> x in b
    ensures DepNames(translit, config, a) == DepNames(translit, config, b)
  {
    ImageSetOnlyElements(code => DepName(translit, config, code), a, b);
  }

  /** An image set depends only on which elements occur. */
  lemma ImageSetOnlyElements(f: string -> string, a: seq<string>, b: seq<string>)
    requires forall x :: x in a <==> x in b
    ensures ImageSet(f, a) == ImageSet(f, b)
  {
    forall n | n in ImageSet(f, a)
      ensures n in ImageSet(f, b)
    {
      var t :| 0 <= t < |a| && f(a[t]) == n;
      assert a[t] in b;
      var u :| 0 <= u < |b| && b[u] == a[t];
    }
    forall n | n in ImageSet(f, b)
      ensures n in ImageSet(f, a)
    {
      var t :| 0 <= t < |b| && f(b[t]) == n;
      assert b[t] in a;
      var u :| 0 <= u < |a| && a[u] == b[t];
    }
  }
}
