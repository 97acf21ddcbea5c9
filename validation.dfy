/**
  Acceptance rules for tags and for metric records (metric.go): a tag is
  `key=value` with restricted characters, and a record needs a non-zero org,
  a non-zero interval, a name, a known mtype and well-formed tags, checked
  in that order.
*/
module Validation {

  import opened Wrappers
  import opened Strings

  /** `strings.ContainsAny(s, chars)`. */
  predicate ContainsAny(s: string, chars: string)
  {
    exists i, j | 0 <= i < |s| && 0 <= j < |chars| :: s[i] == chars[j]
  }

  /**
    A tag key: at least one byte, none of `;`, `!`, `^` or `=`. A valid key
    therefore ends at the tag's first `=` and never crosses a `;` separator.
  */
  predicate ValidateTagKey(key: string): (ok: bool)
    ensures ok ==> key != [] && '=' !in key && ';' !in key
  {
    if |key| == 0 then false
    else
      var ok := !ContainsAny(key, ";!^=");
      assert ok ==> '=' !in key && ';' !in key by {
        if ok {
          forall i | 0 <= i < |key| ensures key[i] != '=' && key[i] != ';' {
            assert ";!^="[0] == ';' && ";!^="[3] == '=';
          }
        }
      }
      ok
  }

  /** A tag value: at least one byte, no leading `~`, no `;`. */
  predicate ValidateTagValue(value: string)
  {
    if |value| == 0 then false
    else if value[0] == '~' then false
    else ';' !in value
  }

  /** The whole tag, split at its first `=`. */
  predicate ValidateTag(tag: string)
  {
    if |tag| < 3 then false
    else
      var equal := IndexOf(tag, '=');
      if equal == -1 then false
      else if equal == 0 || equal == |tag| - 1 then false
      else ValidateTagKey(tag[..equal]) && ValidateTagValue(tag[equal + 1..])
  }

  /** A byte a tag key may hold. */
  predicate AllowedInKey(c: char)
  {
    c != ';' && c != '!' && c != '^' && c != '='
  }

  /** A key is valid exactly when it is non-empty and every byte is allowed. */
  lemma ValidateTagKeyMeans(key: string)
    ensures ValidateTagKey(key) <==> |key| > 0 && forall i | 0 <= i < |key| :: AllowedInKey(key[i])
  {
    if exists i | 0 <= i < |key| :: !AllowedInKey(key[i]) {
      var i :| 0 <= i < |key| && !AllowedInKey(key[i]);
      var j := if key[i] == ';' then 0 else if key[i] == '!' then 1 else if key[i] == '^' then 2 else 3;
      assert key[i] == ";!^="[j];
    } else {
      forall i, j | 0 <= i < |key| && 0 <= j < 4 ensures key[i] != ";!^="[j] {
        assert AllowedInKey(key[i]);
      }
    }
  }

  /**
    `tag` has an `=` at index `k`, with a non-empty key of allowed bytes
    before it and a non-empty value after it that does not start with `~`
    and holds no `;`.
  */
  predicate SplitsAt(tag: string, k: int)
  {
    && 0 < k < |tag| - 1
    && tag[k] == '='
    && (forall i | 0 <= i < k :: AllowedInKey(tag[i]))
    && tag[k + 1] != '~'
    && (forall i | k < i < |tag| :: tag[i] != ';')
  }

  /**
    The rule stated without "first `=`" or a length check: a tag is valid
    exactly when some `=` splits it into an allowed key and an allowed value.
  */
  lemma ValidateTagMeans(tag: string)
    ensures ValidateTag(tag) <==> exists k :: SplitsAt(tag, k)
  {
    if ValidateTag(tag) {
      var k := IndexOf(tag, '=');
      var key := tag[..k];
      ValidateTagKeyMeans(key);
      forall i | 0 <= i < k ensures AllowedInKey(tag[i]) {
        assert key[i] == tag[i];
      }
      forall i | k < i < |tag| ensures tag[i] != ';' {
        assert tag[k + 1..][i - k - 1] == tag[i];
      }
      assert SplitsAt(tag, k);
    }
    if k :| SplitsAt(tag, k) {
      var key := tag[..k];
      assert '=' !in key by {
        forall i | 0 <= i < k ensures key[i] != '=' { assert AllowedInKey(tag[i]); }
      }
      IndexOfFirst(tag, '=', k);
      ValidateTagKeyMeans(key);
      var value := tag[k + 1..];
      assert ';' !in value by {
        forall i | 0 <= i < |value| ensures value[i] != ';' {
          assert value[i] == tag[k + 1 + i];
        }
      }
    }
  }

  /**
    Building a tag from a key and a value: when the key holds no `=`, the tag
    is valid exactly when both halves are, and it splits back into them.
  */
  lemma TagFromKeyValue(key: string, value: string)
    requires '=' !in key
    ensures var tag := key + "=" + value;
      && (ValidateTag(tag) <==> ValidateTagKey(key) && ValidateTagValue(value))
      && IndexOf(tag, '=') == |key|
      && tag[..|key|] == key && tag[|key| + 1..] == value
  {
    var tag := key + "=" + value;
    assert tag[..|key|] == key;
    IndexOfFirst(tag, '=', |key|);
    assert tag[|key| + 1..] == value;
  }

  /** `ValidateTags`' verdict: every tag is valid (so the empty list is). */
  predicate AllTagsValid(tags: seq<string>)
  {
    forall i | 0 <= i < |tags| :: ValidateTag(tags[i])
  }

  /** Checks the tags in order and stops at the first invalid one. */
  method ValidateTags(tags: seq<string>) returns (ok: bool)
    ensures ok <==> AllTagsValid(tags)
  {
    var i := 0;
    while i < |tags|
      invariant 0 <= i <= |tags|
      invariant AllTagsValid(tags[..i])
    {
      if !ValidateTag(tags[i]) {
        return false;
      }
      assert tags[..i + 1] == tags[..i] + [tags[i]];
      i := i + 1;
    }
    assert tags[..i] == tags;
    return true;
  }

  /**
    The tag cases of metric_test.go, each with its expected verdict, one
    lemma per tag (the tags of its tag-list cases included).
  */
  lemma TagVectorPlain()
    ensures ValidateTag("abc=cba")
  {
    assert "abc=cba" == "abc" + "=" + "cba";
    TagFromKeyValue("abc", "cba");
  }

  lemma TagVectorEmptyValue()
    ensures !ValidateTag("a=")
  {
    assert "a=" == "a" + "=" + "";
    TagFromKeyValue("a", "");
  }

  lemma TagVectorBangEmptyValue()
    ensures !ValidateTag("a!=")
  {
    assert "a!=" == "a!" + "=" + "";
    TagFromKeyValue("a!", "");
  }

  lemma TagVectorEmptyKey()
    ensures !ValidateTag("=abc")
  {
    assert "=abc" == "" + "=" + "abc";
    TagFromKeyValue("", "abc");
  }

  lemma TagVectorBangBeforeEqual()
    ensures !ValidateTag("@#$%!=(*&")
  {
    assert "@#$%!=(*&" == "@#$%!" + "=" + "(*&";
    TagFromKeyValue("@#$%!", "(*&");
    assert "@#$%!"[4] == ";!^="[1];
  }

  lemma TagVectorLeadingBang()
    ensures !ValidateTag("!@#$%=(*&")
  {
    assert "!@#$%=(*&" == "!@#$%" + "=" + "(*&";
    TagFromKeyValue("!@#$%", "(*&");
    assert "!@#$%"[0] == ";!^="[1];
  }

  lemma TagVectorSemicolonInKey()
    ensures !ValidateTag("@#;$%=(*&")
  {
    assert "@#;$%=(*&" == "@#;$%" + "=" + "(*&";
    TagFromKeyValue("@#;$%", "(*&");
    assert "@#;$%"[2] == ";!^="[0];
  }

  lemma TagVectorSemicolonInValue()
    ensures !ValidateTag("@#$%=(;*&")
  {
    assert "@#$%=(;*&" == "@#$%" + "=" + "(;*&";
    TagFromKeyValue("@#$%", "(;*&");
    assert "(;*&"[1] == ';';
  }

  lemma TagVectorSymbols()
    ensures ValidateTag("@#$%=(*&")
  {
    assert "@#$%=(*&" == "@#$%" + "=" + "(*&";
    ValidateTagKeyMeans("@#$%");
    assert ValidateTagKey("@#$%");
    assert ValidateTagValue("(*&");
    TagFromKeyValue("@#$%", "(*&");
  }

  lemma TagVectorBangValue()
    ensures ValidateTag("abc=!fd")
  {
    assert "abc=!fd" == "abc" + "=" + "!fd";
    ValidateTagKeyMeans("abc");
    assert ValidateTagKey("abc");
    assert ValidateTagValue("!fd");
    TagFromKeyValue("abc", "!fd");
  }

  lemma TagVectorEqualsInValue()
    ensures ValidateTag("a====")
  {
    assert "a====" == "a" + "=" + "===";
    ValidateTagKeyMeans("a");
    assert ValidateTagKey("a");
    assert ValidateTagValue("===");
    TagFromKeyValue("a", "===");
  }

  lemma TagVectorSemicolonAfterEquals()
    ensures !ValidateTag("a===;=")
  {
    assert "a===;=" == "a" + "=" + "==;=";
    assert "==;="[2] == ';';
    assert !ValidateTagValue("==;=");
    TagFromKeyValue("a", "==;=");
  }

  datatype ValidationError =
    | InvalidOrgIdZero
    | InvalidIntervalZero
    | InvalidEmptyName
    | InvalidMtype
    | InvalidTagFormat

  /** The measurement types a record may carry. */
  predicate KnownMtype(mtype: string)
  {
    mtype in {"gauge", "rate", "count", "counter", "timestamp"}
  }

  /**
    `Validate` of both record types: the first failing check decides the
    error, in the order org, interval, name, mtype, tags.
  */
  function ValidateRecord(orgId: int, interval: int, name: string, mtype: string, tags: seq<string>)
    : (r: Option<ValidationError>)
    ensures r == None <==>
      orgId != 0 && interval != 0 && name != "" && KnownMtype(mtype) && AllTagsValid(tags)
    ensures r == Some(InvalidOrgIdZero) <==> orgId == 0
    ensures r == Some(InvalidIntervalZero) <==> orgId != 0 && interval == 0
    ensures r == Some(InvalidEmptyName) <==> orgId != 0 && interval != 0 && name == ""
    ensures r == Some(InvalidMtype) <==>
      orgId != 0 && interval != 0 && name != "" && !KnownMtype(mtype)
    ensures r == Some(InvalidTagFormat) <==>
      orgId != 0 && interval != 0 && name != "" && KnownMtype(mtype) && !AllTagsValid(tags)
  {
    if orgId == 0 then Some(InvalidOrgIdZero)
    else if interval == 0 then Some(InvalidIntervalZero)
    else if name == "" then Some(InvalidEmptyName)
    else if mtype == "" || (mtype != "gauge" && mtype != "rate" && mtype != "count"
                            && mtype != "counter" && mtype != "timestamp") then Some(InvalidMtype)
    else if !AllTagsValid(tags) then Some(InvalidTagFormat)
    else None
  }
}
