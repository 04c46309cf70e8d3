/**
 * Settings: the access-token lifetime and the validator that turns the
 * `BACKEND_CORS_ORIGINS` setting into a list of origins.
 */
module Config {
  import opened Wrappers
  import opened PyStr

  /** `ACCESS_TOKEN_EXPIRE_MINUTES` when the environment does not override it. */
  const DefaultAccessTokenExpireMinutes: int := 60

  /** The raw value handed to the validator before any other parsing. */
  datatype CorsSetting =
    | CorsText(text: string)        // a `str`
    | CorsItems(items: seq<string>) // a `list`
    | CorsOther                     // any other Python value

  /** The validator's return type, `Union[List[str], str]`. */
  datatype CorsOrigins = OriginList(origins: seq<string>) | OriginText(text: string)

  predicate StartsWithBracket(s: string) {
    |s| > 0 && s[0] == '['
  }

  /** `p.strip()` for every piece, in order. */
  function StripEach(parts: seq<string>): (r: seq<string>)
    ensures |r| == |parts|
    ensures forall i :: 0 <= i < |r| ==> r[i] == Strip(parts[i])
  {
    seq(|parts|, i requires 0 <= i < |parts| => Strip(parts[i]))
  }

  /** The non-empty entries of `ss`, in order. */
  function DropBlank(ss: seq<string>): (r: seq<string>)
    ensures |r| <= |ss|
    ensures forall i :: 0 <= i < |r| ==> r[i] != "" && r[i] in ss
  {
    if ss == [] then []
    else if ss[0] == "" then DropBlank(ss[1..])
    else [ss[0]] + DropBlank(ss[1..])
  }

  /** `[p.strip() for p in parts if p.strip()]`: the non-blank pieces, stripped, in order. */
  function KeepStripped(parts: seq<string>): (r: seq<string>)
    ensures |r| <= |parts|
    ensures forall i :: 0 <= i < |r| ==> r[i] != "" && IsStripped(r[i])
  {
    DropBlank(StripEach(parts))
  }

  /**
   * `Settings.assemble_cors_origins`. A string that does not start with `[` is
   * split on `,`, each piece stripped and blank pieces dropped; a list, or a
   * string that starts with `[`, is returned as it is; anything else raises
   * `ValueError(v)`, modelled as `Err(v)`.
   */
  function AssembleCorsOrigins(v: CorsSetting): (r: Result<CorsOrigins, CorsSetting>)
    ensures r.Err? <==> v.CorsOther?
    ensures r.Err? ==> r.error == v
    ensures v.CorsItems? ==> r == Ok(OriginList(v.items))
    ensures v.CorsText? && StartsWithBracket(v.text) ==> r == Ok(OriginText(v.text))
    ensures v.CorsText? && !StartsWithBracket(v.text) ==>
      && r.Ok? && r.value.OriginList?
      && |r.value.origins| <= |Split(v.text, ',')|
      && forall i :: 0 <= i < |r.value.origins| ==>
           r.value.origins[i] != "" && IsStripped(r.value.origins[i]) && ',' !in r.value.origins[i]
  {
    match v
    case CorsText(s) =>
      if !StartsWithBracket(s) then
        var parts := Split(s, ',');
        var kept := KeepStripped(parts);
        KeepStrippedAvoids(parts, ',');
        Ok(OriginList(kept))
      else
        Ok(OriginText(s))
    case CorsItems(items) => Ok(OriginList(items))
    case CorsOther => Err(v)
  }

  /** `DropBlank` keeps exactly the non-empty entries. */
  lemma {:induction false} DropBlankMembers(ss: seq<string>, x: string)
    ensures x in DropBlank(ss) <==> x != "" && x in ss
  {
    if ss != [] {
      DropBlankMembers(ss[1..], x);
      assert ss == [ss[0]] + ss[1..];
    }
  }

  /** Without blank entries `DropBlank` changes nothing. */
  lemma {:induction false} DropBlankNoBlanks(ss: seq<string>)
    requires forall i :: 0 <= i < |ss| ==> ss[i] != ""
    ensures DropBlank(ss) == ss
  {
    if ss != [] {
      DropBlankNoBlanks(ss[1..]);
    }
  }

  /** `DropBlank` works entry by entry: filtering a concatenation concatenates the filtered parts. */
  lemma {:induction false} DropBlankAppend(a: seq<string>, b: seq<string>)
    ensures DropBlank(a + b) == DropBlank(a) + DropBlank(b)
  {
    if a == [] {
      assert a + b == b;
    } else {
      assert (a + b)[0] == a[0];
      assert (a + b)[1..] == a[1..] + b;
      DropBlankAppend(a[1..], b);
    }
  }

  /** Stripping works piece by piece over a concatenation. */
  lemma StripEachAppend(a: seq<string>, b: seq<string>)
    ensures StripEach(a + b) == StripEach(a) + StripEach(b)
  {
    assert forall i :: 0 <= i < |a| ==> (a + b)[i] == a[i];
    assert forall i :: |a| <= i < |a| + |b| ==> (a + b)[i] == b[i - |a|];
  }

  /**
   * The kept pieces of a concatenation are the kept pieces of each part, in
   * order: surviving pieces keep their input order and their repetitions.
   */
  lemma KeepStrippedAppend(a: seq<string>, b: seq<string>)
    ensures KeepStripped(a + b) == KeepStripped(a) + KeepStripped(b)
  {
    StripEachAppend(a, b);
    DropBlankAppend(StripEach(a), StripEach(b));
  }

  /** One piece is kept, stripped, exactly when its stripped form is not blank. */
  lemma KeepStrippedSingle(p: string)
    ensures KeepStripped([p]) == if Strip(p) == "" then [] else [Strip(p)]
  {
    assert StripEach([p]) == [Strip(p)];
    assert [Strip(p)][1..] == [];
  }

  /** A value is kept exactly when it is the non-blank stripped form of some piece. */
  lemma KeepStrippedMembers(parts: seq<string>, x: string)
    ensures x in KeepStripped(parts) <==>
      x != "" && exists j :: 0 <= j < |parts| && x == Strip(parts[j])
  {
    var stripped := StripEach(parts);
    DropBlankMembers(stripped, x);
    if x in stripped {
      var j :| 0 <= j < |stripped| && stripped[j] == x;
      assert x == Strip(parts[j]);
    }
  }

  /** When no piece is blank, every piece survives, stripped, at its original position. */
  lemma KeepStrippedNoBlanks(parts: seq<string>)
    requires forall i :: 0 <= i < |parts| ==> Strip(parts[i]) != ""
    ensures KeepStripped(parts) == StripEach(parts)
  {
    DropBlankNoBlanks(StripEach(parts));
  }

  /** A character absent from every piece is absent from every kept value. */
  lemma KeepStrippedAvoids(parts: seq<string>, c: char)
    requires forall j :: 0 <= j < |parts| ==> c !in parts[j]
    ensures forall i :: 0 <= i < |KeepStripped(parts)| ==> c !in KeepStripped(parts)[i]
  {
    var stripped := StripEach(parts);
    forall i | 0 <= i < |KeepStripped(parts)|
      ensures c !in KeepStripped(parts)[i]
    {
      var j :| 0 <= j < |stripped| && stripped[j] == KeepStripped(parts)[i];
      StripAvoids(parts[j], c);
    }
  }

  /** A clean origin: non-blank, already stripped and free of commas. */
  predicate IsCleanOrigin(o: string) {
    o != "" && IsStripped(o) && ',' !in o
  }

  /** Clean origins all survive `KeepStripped` unchanged. */
  lemma CleanOriginsKept(origins: seq<string>)
    requires forall i :: 0 <= i < |origins| ==> IsCleanOrigin(origins[i])
    ensures KeepStripped(origins) == origins
  {
    forall i | 0 <= i < |origins|
      ensures Strip(origins[i]) == origins[i]
    {
      StripStripped(origins[i]);
    }
    KeepStrippedNoBlanks(origins);
    assert StripEach(origins) == origins;
  }

  /**
   * Writing a list of clean origins as a comma-separated string and validating
   * it gives the same list back: nothing is lost, added or reordered.
   */
  lemma CorsRoundTrip(origins: seq<string>)
    requires forall i :: 0 <= i < |origins| ==> IsCleanOrigin(origins[i])
    requires origins != [] ==> !StartsWithBracket(origins[0])
    ensures AssembleCorsOrigins(CorsText(Join(origins, ','))) == Ok(OriginList(origins))
  {
    var s := Join(origins, ',');
    if origins == [] {
      assert Split(s, ',') == [""];
      assert KeepStripped([""]) == [];
    } else {
      assert !StartsWithBracket(s) by {
        assert s[0] == origins[0][0];
      }
      SplitJoin(origins, ',');
      CleanOriginsKept(origins);
    }
  }
}
