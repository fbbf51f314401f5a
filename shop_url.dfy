/** The shop domain check: an anchored match of `^[a-zA-Z0-9][a-zA-Z0-9\-]*\.myshopify\.com$`
    against the whole candidate string. */
module ShopUrl {

  /** The literal tail of the pattern, `\.myshopify\.com` unescaped. */
  const SHOP_SUFFIX := ".myshopify.com"

  /** `[a-zA-Z0-9]`: ASCII letters of both cases and digits. */
  predicate IsAlphanumeric(c: char)
  {
    'a' <= c <= 'z' || 'A' <= c <= 'Z' || '0' <= c <= '9'
  }

  /** `[a-zA-Z0-9\-]` */
  predicate IsLabelChar(c: char)
  {
    IsAlphanumeric(c) || c == '-'
  }

  /** The pattern as a statement about the string: a non-empty prefix that starts with an
      alphanumeric and continues with alphanumerics or hyphens, then exactly the suffix. */
  predicate MatchesShopPattern(s: string)
  {
    && |s| > |SHOP_SUFFIX|
    && s[|s| - |SHOP_SUFFIX|..] == SHOP_SUFFIX
    && IsAlphanumeric(s[0])
    && forall i | 1 <= i < |s| - |SHOP_SUFFIX| :: IsLabelChar(s[i])
  }

  /** What the matcher does after the first character: `[a-zA-Z0-9\-]*` followed by the
      suffix and the end of the input. A label character is never `.`, so at each position
      either the suffix starts or one more label character is taken. */
  function MatchTail(s: string): bool
  {
    s == SHOP_SUFFIX || (s != [] && IsLabelChar(s[0]) && MatchTail(s[1..]))
  }

  lemma {:induction false} MatchTailSuffix(s: string)
    ensures MatchTail(s) <==>
      && |s| >= |SHOP_SUFFIX|
      && s[|s| - |SHOP_SUFFIX|..] == SHOP_SUFFIX
      && forall i | 0 <= i < |s| - |SHOP_SUFFIX| :: IsLabelChar(s[i])
  {
    if s == SHOP_SUFFIX {
    } else if |s| <= |SHOP_SUFFIX| {
      if s != [] {
        MatchTailSuffix(s[1..]);
      }
    } else {
      MatchTailSuffix(s[1..]);
      assert s[1..][|s| - 1 - |SHOP_SUFFIX|..] == s[|s| - |SHOP_SUFFIX|..];
      assert forall i | 1 <= i < |s| - |SHOP_SUFFIX| :: s[1..][i - 1] == s[i];
    }
  }

  /** `shopify_url`: true exactly when the candidate matches the pattern in full. */
  function ShopifyUrl(shop: string): (r: bool)
    ensures r <==> MatchesShopPattern(shop)
  {
    if shop == [] then false
    else
      MatchTailSuffix(shop[1..]);
      assert forall i | 1 <= i < |shop| - |SHOP_SUFFIX| :: shop[1..][i - 1] == shop[i];
      assert |shop| > |SHOP_SUFFIX| ==> shop[1..][|shop| - 1 - |SHOP_SUFFIX|..] == shop[|shop| - |SHOP_SUFFIX|..];
      IsAlphanumeric(shop[0]) && MatchTail(shop[1..])
  }

  /** An accepted domain is at least one character plus the exact lowercase suffix, every
      character is an ASCII letter, a digit, a hyphen or a dot, so none can start a path, a
      query, a fragment, a port, user information or a second host, and none is white space;
      the only dots are the two of the suffix, so there is exactly one label in front of
      `myshopify.com`. */
  lemma AcceptedIsSingleLabel(s: string)
    requires ShopifyUrl(s)
    ensures |s| >= |SHOP_SUFFIX| + 1
    ensures s[|s| - |SHOP_SUFFIX|..] == ".myshopify.com"
    ensures forall i | 0 <= i < |s| :: IsLabelChar(s[i]) || s[i] == '.'
    ensures forall i | 0 <= i < |s| ::
      s[i] != '/' && s[i] != '?' && s[i] != '#' && s[i] != '@' && s[i] != ':' &&
      s[i] != '_' && s[i] != ' ' && s[i] != '\t' && s[i] != '\n' && s[i] != '\r'
    ensures forall i | 0 <= i < |s| && s[i] == '.' :: i == |s| - 14 || i == |s| - 4
  {
    var n := |s| - |SHOP_SUFFIX|;
    forall i | n <= i < |s|
      ensures s[i] == SHOP_SUFFIX[i - n]
    {
      assert s[n..][i - n] == s[i];
    }
  }

  /** A leading hyphen is rejected; hyphens anywhere after the first character are accepted,
      directly before the suffix too. */
  lemma HyphenPlacement(first: char, rest: string)
    requires IsAlphanumeric(first)
    requires forall i | 0 <= i < |rest| :: IsLabelChar(rest[i])
    ensures ShopifyUrl([first] + rest + SHOP_SUFFIX)
    ensures ShopifyUrl([first] + rest + "-" + SHOP_SUFFIX)
    ensures !ShopifyUrl(['-'] + rest + SHOP_SUFFIX)
  {
    var s := [first] + rest + SHOP_SUFFIX;
    assert s[|s| - |SHOP_SUFFIX|..] == SHOP_SUFFIX;
    assert forall i | 1 <= i < |s| - |SHOP_SUFFIX| :: s[i] == rest[i - 1];
    var t := [first] + rest + "-" + SHOP_SUFFIX;
    assert t[|t| - |SHOP_SUFFIX|..] == SHOP_SUFFIX;
    assert forall i | 1 <= i < |t| - |SHOP_SUFFIX| - 1 :: t[i] == rest[i - 1];
    assert t[|t| - |SHOP_SUFFIX| - 1] == '-';
  }

  /** The suffix alone, with or without its dot, and the empty string are rejected, as is
      the suffix in other letter cases. */
  lemma RejectsBareSuffix()
    ensures !ShopifyUrl("") && !ShopifyUrl("myshopify.com") && !ShopifyUrl(".myshopify.com")
    ensures !ShopifyUrl("shop.MYSHOPIFY.COM")
  {
    assert ".myshopify.com"[0] == '.';
    assert "shop.MYSHOPIFY.COM"[5] == 'M';
  }

  /** Known good domains are accepted: a hyphen inside the label, a digit, and a hyphen
      right before the suffix. */
  lemma AcceptsHyphenated()
    ensures ShopifyUrl("my-shop.myshopify.com")
  {
    var s := "my-shop.myshopify.com";
    assert s[7..] == SHOP_SUFFIX && MatchesShopPattern(s);
  }

  lemma AcceptsDigit()
    ensures ShopifyUrl("a1.myshopify.com")
  {
    var s := "a1.myshopify.com";
    assert s[2..] == SHOP_SUFFIX && MatchesShopPattern(s);
  }

  lemma AcceptsTrailingHyphen()
    ensures ShopifyUrl("a-.myshopify.com")
  {
    var s := "a-.myshopify.com";
    assert s[2..] == SHOP_SUFFIX && MatchesShopPattern(s);
  }

  /** A character outside the label class, or a leading hyphen, is rejected. */
  lemma RejectsBadLabels()
    ensures !ShopifyUrl("my_shop.myshopify.com") && !ShopifyUrl("-a.myshopify.com")
  {
    var underscore, hyphen := "my_shop.myshopify.com", "-a.myshopify.com";
    assert !IsLabelChar(underscore[2]);
    assert !MatchesShopPattern(underscore);
    assert !IsAlphanumeric(hyphen[0]);
  }

  /** Another host in front of the suffix, or a second label, is rejected. */
  lemma RejectsExtraLabels()
    ensures !ShopifyUrl("evil.com/.myshopify.com") && !ShopifyUrl("a.b.myshopify.com")
  {
    var host, labels := "evil.com/.myshopify.com", "a.b.myshopify.com";
    assert !IsLabelChar(host[4]);
    assert !MatchesShopPattern(host);
    assert !IsLabelChar(labels[1]);
    assert !MatchesShopPattern(labels);
  }

  /** Anything after the suffix is rejected: a path, a trailing dot. */
  lemma RejectsTrailingText()
    ensures !ShopifyUrl("shop.myshopify.com/admin") && !ShopifyUrl("shop.myshopify.com.")
  {
    var path, dot := "shop.myshopify.com/admin", "shop.myshopify.com.";
    assert path[|path| - |SHOP_SUFFIX|..][|SHOP_SUFFIX| - 1] == 'n' != SHOP_SUFFIX[|SHOP_SUFFIX| - 1];
    assert dot[|dot| - |SHOP_SUFFIX|..][|SHOP_SUFFIX| - 1] == '.' != SHOP_SUFFIX[|SHOP_SUFFIX| - 1];
  }
}
