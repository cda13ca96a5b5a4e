/**
 * `getCookie(name)`: reads one value out of `document.cookie`, a string of
 * `key=value` entries separated by `;`.
 */
module Cookies {
  import opened Common
  import opened Text

  /** The key of an entry: the first piece of `entry.trim().split("=")`. */
  function EntryKey(entry: string): (key: string)
    ensures '=' !in key
  {
    Split(Trim(entry), '=')[0]
  }

  /**
   * The value of an entry: the second piece of `entry.trim().split("=")`, so
   * anything after a second `=` is dropped. An entry without `=` has no
   * second piece, and `decodeURIComponent(undefined)` is the string
   * `"undefined"`.
   */
  function EntryValue(entry: string): (value: string)
    ensures '=' !in value
  {
    var parts := Split(Trim(entry), '=');
    if |parts| >= 2 then parts[1] else "undefined"
  }

  /** The value of the first entry whose key is `name`, `None` when no key matches. */
  function Lookup(entries: seq<string>, name: string): (r: Option<string>)
    ensures r.Some? ==> '=' !in r.value
  {
    if entries == [] then None
    else if EntryKey(entries[0]) == name then Some(EntryValue(entries[0]))
    else Lookup(entries[1..], name)
  }

  /** No value is found exactly when no entry has the key `name`. */
  lemma {:induction false} LookupNone(entries: seq<string>, name: string)
    ensures Lookup(entries, name).None? <==> forall i :: 0 <= i < |entries| ==> EntryKey(entries[i]) != name
  {
    if entries != [] && EntryKey(entries[0]) != name {
      LookupNone(entries[1..], name);
      assert forall i :: 1 <= i < |entries| ==> entries[i] == entries[1..][i - 1];
    }
  }

  /** A value found is that of the FIRST entry whose key is `name`. */
  lemma {:induction false} LookupFirstMatch(entries: seq<string>, name: string)
    requires Lookup(entries, name).Some?
    ensures exists k :: (0 <= k < |entries| && EntryKey(entries[k]) == name &&
                         Lookup(entries, name).value == EntryValue(entries[k]) &&
                         forall j :: 0 <= j < k ==> EntryKey(entries[j]) != name)
  {
    if EntryKey(entries[0]) == name {
      assert Lookup(entries, name).value == EntryValue(entries[0]);
    } else {
      var tail := entries[1..];
      LookupFirstMatch(tail, name);
      var i :| 0 <= i < |tail| && EntryKey(tail[i]) == name &&
        Lookup(tail, name).value == EntryValue(tail[i]) &&
        forall j :: 0 <= j < i ==> EntryKey(tail[j]) != name;
      assert entries[i + 1] == tail[i];
      forall j | 0 <= j < i + 1 ensures EntryKey(entries[j]) != name {
        if j > 0 { assert entries[j] == tail[j - 1]; }
      }
    }
  }

  /**
   * What `getCookie(name)` returns for the cookie string `cookie`, before
   * `decodeURIComponent`: the raw value. `None` stands for `null`.
   */
  function CookieValue(cookie: string, name: string): (r: Option<string>)
    ensures r.None? <==> forall e :: e in Split(cookie, ';') ==> EntryKey(e) != name
    ensures r.Some? ==> '=' !in r.value
  {
    LookupNone(Split(cookie, ';'), name);
    Lookup(Split(cookie, ';'), name)
  }

  /** The loop of `getCookie`: the first entry with a matching key ends the search. */
  method GetCookie(cookie: string, name: string) returns (r: Option<string>)
    ensures r == CookieValue(cookie, name)
  {
    var cookies := Split(cookie, ';');
    var i := 0;
    while i < |cookies|
      invariant 0 <= i <= |cookies|
      invariant Lookup(cookies[i..], name) == Lookup(cookies, name)
    {
      assert cookies[i..][1..] == cookies[i + 1..];
      if EntryKey(cookies[i]) == name {
        return Some(EntryValue(cookies[i]));
      }
      i := i + 1;
    }
    return None;
  }

  /** Splitting at a separator placed between two strings splits each of them. */
  lemma {:induction false} SplitAround(a: string, b: string, sep: char)
    ensures Split(a + [sep] + b, sep) == Split(a, sep) + Split(b, sep)
    decreases |a|
  {
    if a == [] {
      assert a + [sep] + b == [sep] + b;
      assert ([sep] + b)[1..] == b;
    } else {
      assert (a + [sep] + b)[1..] == a[1..] + [sep] + b;
      SplitAround(a[1..], b, sep);
    }
  }

  /**
   * A cookie set again further along the cookie string does not change what
   * is read: the first occurrence wins.
   */
  lemma {:induction false} FirstCookieWins(front: string, back: string, name: string)
    requires CookieValue(front, name).Some?
    ensures CookieValue(front + ";" + back, name) == CookieValue(front, name)
  {
    SplitAround(front, back, ';');
    LookupAppend(Split(front, ';'), Split(back, ';'), name);
  }

  lemma {:induction false} LookupAppend(xs: seq<string>, ys: seq<string>, name: string)
    requires Lookup(xs, name).Some?
    ensures Lookup(xs + ys, name) == Lookup(xs, name)
  {
    if EntryKey(xs[0]) != name {
      assert (xs + ys)[1..] == xs[1..] + ys;
      LookupAppend(xs[1..], ys, name);
    }
  }

  /**
   * What a shop sets as `name=value` is read back as `value`, also when more
   * cookies follow. The name must not start with white space (`trim` would
   * remove it), and neither part may hold `=` or `;`; a non-empty value must
   * not end with white space.
   */
  lemma SetCookieReadBack(name: string, value: string, rest: string)
    requires name != [] && !IsWhiteSpace(name[0]) && '=' !in name && ';' !in name
    requires '=' !in value && ';' !in value
    requires value != [] ==> !IsWhiteSpace(value[|value| - 1])
    ensures CookieValue(name + "=" + value, name) == Some(value)
    ensures CookieValue(name + "=" + value + ";" + rest, name) == Some(value)
  {
    var entry := name + "=" + value;
    assert entry == name + ['='] + value;
    assert ';' !in entry by { assert forall c :: c in entry ==> c in name || c == '=' || c in value; }
    SplitWithout(entry, ';');
    assert entry[0] == name[0];
    assert entry[|entry| - 1] == if value == [] then '=' else value[|value| - 1];
    TrimUntouched(entry);
    SplitAround(name, value, '=');
    SplitWithout(name, '=');
    SplitWithout(value, '=');
    assert Split(Trim(entry), '=') == [name, value];
    assert [entry][1..] == [];
    FirstCookieWins(entry, rest, name);
  }
}
