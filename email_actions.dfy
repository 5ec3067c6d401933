/**
 * The server actions of src/app/actions/email-actions.ts: the recipient
 * filter, the library-first message parser with its fallback to the manual
 * parser, address generation, and the scan that collects the messages for
 * one address and orders them newest first.
 */
module EmailActions {
  import opened Wrappers
  import opened JsText
  import opened Types
  import opened Host
  import opened MailPatterns
  import opened Calendar
  import S3Utils

  // ---------------------------------------------------------------------------
  // Recipient filter

  /** `isEmailForAddress`: the same substring test as the other copy. */
  function IsEmailForAddress(content: string, address: string): (b: bool)
    ensures b <==> ((exists i :: OccursAt(content, "To: " + address, i))
                 || (exists i :: OccursAt(content, "<" + address + ">", i)))
  {
    S3Utils.IsEmailForAddress(content, address)
  }

  // ---------------------------------------------------------------------------
  // What the mail library hands back

  /** One entry of `parsed.from.value`. */
  datatype AddressEntry = AddressEntry(address: Option<string>)

  /** `parsed.from`: the display text and the list of addresses, each possibly missing. */
  datatype AddressField = AddressField(text: Option<string>, value: Option<seq<AddressEntry>>)

  /** `parsed.date`: a `Date` object, which may be an Invalid Date. */
  datatype MailDate = ValidDate(instant: Instant) | InvalidDate

  /** The fields of the library's parse result that the action reads. */
  datatype ParsedMail = ParsedMail(
    from: Option<AddressField>,
    subject: Option<string>,
    date: Option<MailDate>,
    text: Option<string>,
    html: Option<string>)

  /** A JavaScript string value that is truthy: present and not empty. */
  predicate Truthy(o: Option<string>) {
    o.Some? && o.value != ""
  }

  /** `parsed.from?.value?.[0]?.address`, when truthy. */
  function FirstAddress(from: Option<AddressField>): (a: Option<string>)
    ensures a.Some? ==> a.value != ""
  {
    if from.Some? && from.value.value.Some? && |from.value.value.value| > 0
       && Truthy(from.value.value.value[0].address)
    then from.value.value.value[0].address
    else None
  }

  /** `parsed.from?.text || parsed.from?.value?.[0]?.address || 'Unknown'`: never empty. */
  function RichFrom(from: Option<AddressField>): (r: string)
    ensures r != ""
    ensures from.Some? && Truthy(from.value.text) ==> r == from.value.text.value
    ensures !(from.Some? && Truthy(from.value.text)) ==>
      r == (if FirstAddress(from).Some? then FirstAddress(from).value else "Unknown")
  {
    if from.Some? && Truthy(from.value.text) then from.value.text.value
    else match FirstAddress(from)
      case Some(a) => a
      case None => "Unknown"
  }

  /** `parsed.subject || undefined`: an empty subject counts as none. */
  function RichSubject(subject: Option<string>): (r: Option<string>)
    ensures r.Some? <==> Truthy(subject)
    ensures r.Some? ==> r == subject
  {
    if Truthy(subject) then subject else None
  }

  /**
   * The plain text when the library gives one, in full; otherwise the HTML
   * with every `<[^>]*>` run removed, then trimmed; otherwise empty.
   */
  function RichBody(text: Option<string>, html: Option<string>): (body: string)
    ensures Truthy(text) ==> body == text.value
    ensures !Truthy(text) && Truthy(html) ==>
      && body == Trim(StripTags(html.value))
      && IsTrimmed(body) && NoTagLeft(body)
      && (forall c :: c in body ==> c in html.value)
    ensures !Truthy(text) && !Truthy(html) ==> body == ""
  {
    if Truthy(text) then text.value
    else if Truthy(html) then
      var stripped := StripTags(html.value);
      TrimKeepsTagsOut(stripped);
      Trim(stripped)
    else ""
  }

  /** Trimming cuts a slice, so it adds no tag and no character. */
  lemma TrimKeepsTagsOut(r: string)
    requires NoTagLeft(r)
    ensures NoTagLeft(Trim(r)) && forall c :: c in Trim(r) ==> c in r
  {
    var t := Trim(r);
    var a := LeadingSpace(r);
    forall i, j | 0 <= i < j < |t| && t[i] == '<' ensures t[j] != '>' {
      assert t[i] == r[a + i] && t[j] == r[a + j];
    }
    forall c | c in t ensures c in r {
      var k :| 0 <= k < |t| && t[k] == c;
      assert r[a + k] == c;
    }
  }

  /** HTML without any `<` is the body as it stands, trimmed. */
  lemma HtmlWithoutTags(text: Option<string>, html: string)
    requires !Truthy(text) && html != "" && '<' !in html
    ensures RichBody(text, Some(html)) == Trim(html)
  {
    StripTagsIdentity(html);
  }

  /** With no text part, each closed tag of the HTML is cut out and the text around it is kept. */
  lemma HtmlTagRemoved(text: Option<string>, a: string, t: string, rest: string)
    requires !Truthy(text) && '<' !in a && '>' !in t
    ensures RichBody(text, Some(a + "<" + t + ">" + rest)) == Trim(a + StripTags(rest))
  {
    StripTagsTag(a, t, rest);
  }

  /** The library path throws: no parse result, or a date on which `toISOString` throws. */
  predicate RichPathFails(parsed: Option<ParsedMail>) {
    parsed.None? || parsed.value.date == Some(InvalidDate)
  }

  /** `parseEmailContentFallback`: the manual parser, the same text as the one in s3-utils. */
  function ParseEmailContentFallback(rt: Runtime, id: string, content: string, s3Key: string): (e: Email)
    ensures e == S3Utils.ParseEmailContent(rt, id, content, s3Key)
    ensures e.id == id && e.s3Key == s3Key && IsTrimmed(e.from)
    ensures e.subject.None? <==> forall i :: !HeaderLineAt(content, SubjectName, i)
  {
    S3Utils.ParseEmailContent(rt, id, content, s3Key)
  }

  /**
   * `parseEmailContent`: the fields chosen from the library's result, and the
   * manual parser when the library path throws. `parsed` is what the library
   * returns for `content`, `None` where it throws.
   */
  function ParseEmailContent(rt: Runtime, parsed: Option<ParsedMail>, id: string, content: string, s3Key: string): (e: Email)
    ensures e.id == id && e.s3Key == s3Key
    ensures RichPathFails(parsed) ==> e == ParseEmailContentFallback(rt, id, content, s3Key)
    ensures !RichPathFails(parsed) ==>
      var p := parsed.value;
      && e.from == RichFrom(p.from) && e.from != ""
      && e.subject == RichSubject(p.subject)
      && e.body == RichBody(p.text, p.html)
      && e.receivedAt == (if p.date.Some? then p.date.value.instant else rt.now)
  {
    if RichPathFails(parsed) then ParseEmailContentFallback(rt, id, content, s3Key)
    else
      var p := parsed.value;
      var receivedAt := if p.date.Some? then p.date.value.instant else rt.now;
      Email(id, RichFrom(p.from), RichSubject(p.subject), RichBody(p.text, p.html), receivedAt, s3Key)
  }

  // ---------------------------------------------------------------------------
  // Address generation

  const Domain: string := "@otm.mec.mejsh.com"

  /**
   * `generateEmailAddress` on the date `today` with the random draw
   * `sequence` (`Math.floor(Math.random() * 1000)`): the date stamp, the
   * sequence padded to three digits, and the domain.
   */
  function GenerateEmailAddress(today: CalendarDate, sequence: nat): string
    requires today.Valid() && sequence < 1000
  {
    Stamp(today) + PadStart(NatToString(sequence), 3, '0') + Domain
  }

  /**
   * From year 10 on, a generated address is nine ASCII digits (the date stamp,
   * then the sequence) followed by the domain.
   */
  lemma GeneratedAddressShape(today: CalendarDate, sequence: nat)
    requires today.Valid() && today.fullYear >= 10 && sequence < 1000
    ensures var address := GenerateEmailAddress(today, sequence);
      && |address| == 9 + |Domain|
      && AllDigits(address[..9])
      && address[..6] == Stamp(today)
      && DigitsValue(address[6..9]) == sequence
      && address[9..] == Domain
  {
    assert Pow10(3) == 1000;
    NumeralWidth(sequence, 3);
    PadStartNumeral(sequence, 3);
    AddressPieces(Stamp(today), PadStart(NatToString(sequence), 3, '0'));
  }

  lemma AddressPieces(stamp: string, seqDigits: string)
    requires |stamp| == 6 && AllDigits(stamp) && |seqDigits| == 3 && AllDigits(seqDigits)
    ensures var a := stamp + seqDigits + Domain;
      && |a| == 9 + |Domain| && a[..6] == stamp && a[6..9] == seqDigits && a[9..] == Domain
      && AllDigits(a[..9])
  {
    var a := stamp + seqDigits + Domain;
    assert a[..6] == stamp && a[6..9] == seqDigits && a[9..] == Domain;
    forall i | 0 <= i < 9 ensures IsDigit(a[..9][i]) {
      if i < 6 { assert a[..9][i] == stamp[i]; } else { assert a[..9][i] == seqDigits[i - 6]; }
    }
  }

  /** Different draws on the same day give different addresses. */
  lemma GeneratedAddressesDiffer(today: CalendarDate, m: nat, n: nat)
    requires today.Valid() && today.fullYear >= 10 && m < 1000 && n < 1000 && m != n
    ensures GenerateEmailAddress(today, m) != GenerateEmailAddress(today, n)
  {
    GeneratedAddressShape(today, m);
    GeneratedAddressShape(today, n);
  }

  // ---------------------------------------------------------------------------
  // The scan

  /** One object of the storage listing; `path` may be missing or empty. */
  datatype StoredItem = StoredItem(path: Option<string>)

  /** The listing call: it throws, or it returns `items`, which may be missing. */
  datatype Listing = ListFailed | Listed(items: Option<seq<StoredItem>>)

  /**
   * What the scan reaches through storage and libraries:
   * - `fetchText(path)`: the object's text through `getUrl` and `fetch`, `None` where either throws;
   * - `parseMail(content)`: the mail library's result, `None` where it throws;
   * - `newId(path)`: the random id `generateId` draws for the message at `path`.
   */
  datatype Store = Store(
    fetchText: string -> Option<string>,
    parseMail: string -> Option<ParsedMail>,
    newId: string -> string)

  /** The items of a listing, none when `items` is missing. */
  function ItemsOf(listing: Listing): seq<StoredItem>
    requires listing.Listed?
  {
    if listing.items.Some? then listing.items.value else []
  }

  /** An item the scan skips: no path, or its text cannot be fetched. */
  predicate ItemFails(item: StoredItem, store: Store) {
    !Truthy(item.path) || store.fetchText(item.path.value).None?
  }

  /** The message one item contributes: its parse when its text is for `address`, nothing otherwise. */
  function Harvest(item: StoredItem, address: string, store: Store, rt: Runtime): (found: seq<Email>)
    ensures |found| <= 1
    ensures found != [] <==>
      !ItemFails(item, store) && IsEmailForAddress(store.fetchText(item.path.value).value, address)
    ensures found != [] ==> found[0].s3Key == item.path.value
  {
    if ItemFails(item, store) then []
    else
      var path := item.path.value;
      var content := store.fetchText(path).value;
      if IsEmailForAddress(content, address) then
        [ParseEmailContent(rt, store.parseMail(content), store.newId(path), content, path)]
      else []
  }

  /** The messages the loop pushes for `items`, in listing order; each one's key is a listed path. */
  function Collected(items: seq<StoredItem>, address: string, store: Store, rt: Runtime): (found: seq<Email>)
    ensures |found| <= |items|
    ensures forall k :: 0 <= k < |found| ==>
      exists i :: 0 <= i < |items| && items[i].path == Some(found[k].s3Key)
    decreases |items|
  {
    if items == [] then []
    else
      var n := |items| - 1;
      var front := Collected(items[..n], address, store, rt);
      var last := Harvest(items[n], address, store, rt);
      var found := front + last;
      forall k | 0 <= k < |found|
        ensures exists i :: 0 <= i < |items| && items[i].path == Some(found[k].s3Key)
      {
        if k < |front| {
          var i :| 0 <= i < n && items[..n][i].path == Some(front[k].s3Key);
          assert items[i] == items[..n][i];
        } else {
          assert items[n].path == Some(found[k].s3Key);
        }
      }
      found
  }

  /** Collecting a concatenation collects each part in turn. */
  lemma {:induction false} CollectedAppend(xs: seq<StoredItem>, ys: seq<StoredItem>, address: string, store: Store, rt: Runtime)
    ensures Collected(xs + ys, address, store, rt) == Collected(xs, address, store, rt) + Collected(ys, address, store, rt)
    decreases |ys|
  {
    if ys == [] {
      assert xs + ys == xs;
    } else {
      var n := |ys| - 1;
      assert (xs + ys)[..|xs + ys| - 1] == xs + ys[..n];
      assert (xs + ys)[|xs + ys| - 1] == ys[n];
      CollectedAppend(xs, ys[..n], address, store, rt);
    }
  }

  /** A failing item is skipped: the items around it are collected as if it were not listed. */
  lemma FailedItemDropsOnlyItself(xs: seq<StoredItem>, item: StoredItem, ys: seq<StoredItem>, address: string, store: Store, rt: Runtime)
    requires ItemFails(item, store)
    ensures Collected(xs + [item] + ys, address, store, rt)
         == Collected(xs, address, store, rt) + Collected(ys, address, store, rt)
  {
    var front := xs + [item];
    CollectedAppend(front, ys, address, store, rt);
    CollectedAppend(xs, [item], address, store, rt);
    CollectedSingle(item, address, store, rt);
    var h := Harvest(item, address, store, rt);
    assert h == [];
    var cx := Collected(xs, address, store, rt);
    assert Collected(front, address, store, rt) == cx + h;
    assert cx + h == cx;
  }

  lemma CollectedSingle(item: StoredItem, address: string, store: Store, rt: Runtime)
    ensures Collected([item], address, store, rt) == Harvest(item, address, store, rt)
  {
    assert [item][..0] == [];
  }

  /** One more item adds what that item harvests. */
  lemma CollectedStep(items: seq<StoredItem>, i: nat, address: string, store: Store, rt: Runtime)
    requires i < |items|
    ensures Collected(items[..i + 1], address, store, rt)
         == Collected(items[..i], address, store, rt) + Harvest(items[i], address, store, rt)
  {
    assert items[..i + 1][..i] == items[..i];
  }

  /**
   * `checkS3Emails`: every listed item is visited in order, the messages for
   * `address` are parsed and pushed, and the result is sorted newest first;
   * a failed listing yields no messages.
   */
  method CheckS3Emails(listing: Listing, address: string, store: Store, rt: Runtime) returns (emails: seq<Email>)
    ensures listing.ListFailed? ==> emails == []
    ensures listing.Listed? ==>
      && emails == S3Utils.SortNewestFirst(Collected(ItemsOf(listing), address, store, rt))
      && S3Utils.NewestFirst(emails)
      && multiset(emails) == multiset(Collected(ItemsOf(listing), address, store, rt))
  {
    if listing.ListFailed? {
      return [];
    }
    var found: seq<Email> := [];
    if listing.items.Some? {
      var items := listing.items.value;
      for i := 0 to |items|
        invariant found == Collected(items[..i], address, store, rt)
      {
        var item := items[i];
        CollectedStep(items, i, address, store, rt);
        if item.path.Some? && item.path.value != "" {
          var path := item.path.value;
          var content := store.fetchText(path);
          if content.Some? && IsEmailForAddress(content.value, address) {
            var email := ParseEmailContent(rt, store.parseMail(content.value), store.newId(path), content.value, path);
            found := found + [email];
          }
        }
      }
      assert items[..|items|] == items;
    }
    emails := S3Utils.SortNewestFirst(found);
  }
}
