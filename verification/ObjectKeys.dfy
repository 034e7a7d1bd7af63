/**
  Object keys and public URLs of the bucket: reading a key out of a stored URL, writing a
  URL for a key, and planning where an object belongs.
  */
module ObjectKeys {
  import opened Wrappers
  import opened PercentCoding
  import opened Strings

  // ---------------------------------------------------------------- URLs and keys

  /** The configured public address and the URL parser's path of an arbitrary URL, if it parses. */
  datatype Site = Site(publicUrl: string, pathOf: string -> Option<string>)

  /** `Malformed` stands for the decoding error that the first branch does not catch. */
  datatype KeyLookup = Found(key: string) | External | Malformed

  function WithScheme(s: string): (r: string)
    ensures r != "" && r[0] == 'h'
  {
    if "http" <= s then s else "https://" + s
  }

  function NormalizePublicUrl(raw: string): string {
    var clean := Trim(raw);
    var trimmed := if clean != "" && clean[|clean| - 1] == '/' then clean[..|clean| - 1] else clean;
    if trimmed == "" then "" else WithScheme(trimmed)
  }

  function StripSlashes(s: string): string {
    if s != "" && s[0] == '/' then StripSlashes(s[1..]) else s
  }

  function KeyFromUrl(site: Site, url: string): KeyLookup {
    var clean := Trim(url);
    if clean == "" then External
    else if site.publicUrl != "" && site.publicUrl + "/" <= clean then
      var key := PercentDecode(clean[|site.publicUrl| + 1..]);
      if key.None? then Malformed else Found(key.value)
    else
      var path := site.pathOf(clean);
      if path.None? then External
      else
        var key := PercentDecode(StripSlashes(path.value));
        if key.None? || key.value == "" then External else Found(key.value)
  }

  function UrlFromKey(site: Site, key: string): string {
    site.publicUrl + "/" + key
  }

  function CopySource(bucket: string, key: string): string {
    EncodeUri(bucket + "/" + key)
  }

  function FileName(key: string): string {
    var parts := Split(key, '/');
    parts[|parts| - 1]
  }

  /** A usable public address: present and starting with a visible character. */
  predicate Configured(site: Site) {
    site.publicUrl != "" && !IsSpace(site.publicUrl[0])
  }

  /** Normalisation yields a usable address or none at all, in which case the script stops. */
  lemma NormalizedIsConfigured(raw: string, site: Site)
    requires site.publicUrl == NormalizePublicUrl(raw) != ""
    ensures Configured(site)
  {
    assert site.publicUrl[0] == 'h';
  }

  /** One slash at the end is dropped, and an address without a scheme gets one. */
  lemma NormalizedForms(before: string, base: string, after: string)
    requires AllSpace(before) && AllSpace(after)
    requires base != "" && NotSpace(base[0]) && NotSpace(base[|base| - 1]) && base[|base| - 1] != '/'
    ensures NormalizePublicUrl(before + base + after) == if "http" <= base then base else "https://" + base
    ensures NormalizePublicUrl(before + (base + "/") + after) == if "http" <= base then base else "https://" + base
  {
    TrimKeepsCore(before, base, after);
    TrimKeepsCore(before, base + "/", after);
    assert (base + "/")[..|base|] == base;
  }

  /** The URL of a key leads back to the key exactly when it has no `%` and does not end in white space. */
  lemma KeyUrlRoundTrip(site: Site, key: string)
    requires Configured(site)
    ensures KeyFromUrl(site, UrlFromKey(site, key)) == Found(key) <==>
            '%' !in key && (key == "" || !IsSpace(key[|key| - 1]))
  {
    var base, url := site.publicUrl + "/", UrlFromKey(site, key);
    assert url == base + key && TrimStart(url) == url;
    TrimEndKeepsPrefix(base, key);
    TrimEndLeavesNoSpace(key);
    var kept := TrimEnd(key);
    assert Trim(url) == base + kept;
    assert (base + kept)[|base|..] == kept;
    if '%' !in key {
      assert forall c :: c in kept ==> c in key;
      DecodeWithoutPercent(kept);
    } else if PercentDecode(kept) == Some(key) {
      DecodeShortens(kept, key);
    }
  }

  lemma {:induction false} LeadingSlashesDropped(lead: string, key: string)
    requires (forall c :: c in lead ==> c == '/') && (key == "" || key[0] != '/')
    ensures StripSlashes(lead + key) == key
  {
    if lead == "" {
      assert lead + key == key;
    } else {
      assert lead[0] in lead && (lead + key)[1..] == lead[1..] + key;
      assert forall c :: c in lead[1..] ==> c in lead;
      LeadingSlashesDropped(lead[1..], key);
    }
  }

  /** An address of our objects under another domain gives the same key by its path. */
  lemma KeyFromOtherDomain(site: Site, url: string, lead: string, key: string)
    requires Trim(url) != "" && !(site.publicUrl + "/" <= Trim(url)) && site.pathOf(Trim(url)) == Some(lead + key)
    requires (forall c :: c in lead ==> c == '/') && '%' !in key && (key == "" || key[0] != '/')
    ensures KeyFromUrl(site, url) == if key == "" then External else Found(key)
  {
    LeadingSlashesDropped(lead, key);
    DecodeWithoutPercent(key);
  }

  lemma NoUrlIsExternal(site: Site)
    ensures Trim("") == "" && KeyFromUrl(site, "") == External
  {
  }

  /** An address that does not start with the configured one and whose path names `key`. */
  predicate ForeignUrl(site: Site, url: string, key: string) {
    && Trim(url) != "" && !(site.publicUrl != "" && site.publicUrl + "/" <= Trim(url))
    && site.pathOf(Trim(url)).Some?
    && PercentDecode(StripSlashes(site.pathOf(Trim(url)).value)) == Some(key)
    && key != ""
  }

  /** An address under any other domain is planned as a move of its path, never reported as foreign. */
  lemma ForeignUrlIsPlanned(site: Site, url: string, folder: string)
    requires Trim(url) != "" && !(site.publicUrl != "" && site.publicUrl + "/" <= Trim(url))
    ensures PlanMove(site, url, folder) == Unmapped <==> forall key :: !ForeignUrl(site, url, key)
    ensures forall key :: ForeignUrl(site, url, key) ==>
              PlanMove(site, url, folder) ==
              if key == folder + "/" + FileName(key) then InPlace
              else Relocate(Move(key, folder + "/" + FileName(key)))
  {
    NoUrlIsExternal(site);
    var path := site.pathOf(Trim(url));
    if path.Some? && PercentDecode(StripSlashes(path.value)).Some? {
      var key := PercentDecode(StripSlashes(path.value)).value;
      assert key != "" ==> ForeignUrl(site, url, key);
    }
  }

  /** The rest of an own address is its key, decoded; planning ends with an error exactly if it cannot be. */
  lemma OwnUrlIsPlanned(site: Site, url: string, rest: string, folder: string)
    requires Configured(site) && Trim(url) == site.publicUrl + "/" + rest
    ensures PlanMove(site, url, folder) == Threw <==> PercentDecode(rest) == None
    ensures PlanMove(site, url, folder) == Unmapped <==> PercentDecode(rest) == Some("")
    ensures forall key :: key != "" && PercentDecode(rest) == Some(key) ==> KeyFromUrl(site, url) == Found(key)
  {
    NoUrlIsExternal(site);
    var base := site.publicUrl + "/";
    assert (base + rest)[|base|..] == rest;
  }

  /** The source of a copy request names the old key, whatever characters it has. */
  lemma CopySourceNamesKey(bucket: string, key: string)
    ensures PercentDecode(CopySource(bucket, key)) == Some(bucket + "/" + key)
  {
    DecodeEncode(bucket + "/" + key);
  }

  /** The name is what stands after the last slash, whatever directory stands before it. */
  lemma NameIsLastSegment(dir: string, name: string)
    requires '/' !in name
    ensures FileName(name) == name && FileName(dir + "/" + name) == name
  {
    SplitAtoms(name, '/');
    assert dir + "/" + name == dir + ['/'] + name;
    SplitConcat(dir, '/', name);
  }

  lemma FileNameHasNoSlash(key: string)
    ensures '/' !in FileName(key)
  {
    SplitAtoms(key, '/');
    var parts := Split(key, '/');
    assert parts[|parts| - 1] in parts;
  }

  /** Relocation keeps the file name. */
  lemma FileNameIsStable(folder: string, key: string)
    ensures FileName(folder + "/" + FileName(key)) == FileName(key)
  {
    var name := FileName(key);
    FileNameHasNoSlash(key);
    SplitAtoms(name, '/');
    assert folder + "/" + name == folder + ['/'] + name;
    SplitConcat(folder, '/', name);
  }

  // ---------------------------------------------------------------- planning one URL

  datatype Move = Move(oldKey: string, newKey: string)
  datatype MovePlan = InPlace | Unmapped | Relocate(move: Move) | Threw

  /** Where the object behind `url` has to go; the empty string stands for a missing URL. */
  function PlanMove(site: Site, url: string, folder: string): MovePlan {
    if url == "" then InPlace
    else
      match KeyFromUrl(site, url)
      case Malformed => Threw
      case External => Unmapped
      case Found(oldKey) =>
        if oldKey == "" then Unmapped
        else
          var newKey := folder + "/" + FileName(oldKey);
          if oldKey == newKey then InPlace else Relocate(Move(oldKey, newKey))
  }

  /** The URL a slot holds after its row's update. */
  function TargetUrl(site: Site, url: string, folder: string): string {
    var plan := PlanMove(site, url, folder);
    if plan.Relocate? then UrlFromKey(site, plan.move.newKey) else url
  }

  /** Keys that survive being written as a URL and read back. */
  predicate CleanKey(key: string) {
    key != "" && '%' !in key && !IsSpace(key[|key| - 1])
  }

  /** Planning is a projection: a relocated URL is in its place. */
  lemma PlanMoveIsProjection(site: Site, url: string, folder: string)
    requires Configured(site)
    requires PlanMove(site, url, folder).Relocate? ==> CleanKey(PlanMove(site, url, folder).move.newKey)
    ensures !PlanMove(site, TargetUrl(site, url, folder), folder).Relocate?
    ensures TargetUrl(site, TargetUrl(site, url, folder), folder) == TargetUrl(site, url, folder)
    ensures PlanMove(site, url, folder).Relocate? ==>
              KeyFromUrl(site, TargetUrl(site, url, folder)) == Found(PlanMove(site, url, folder).move.newKey)
              && PlanMove(site, TargetUrl(site, url, folder), folder) == InPlace
  {
    var plan := PlanMove(site, url, folder);
    if plan.Relocate? {
      KeyUrlRoundTrip(site, plan.move.newKey);
      FileNameIsStable(folder, plan.move.oldKey);
    }
  }

  lemma SameDirectory(a: string, b: string, name: string)
    ensures a + "/" + name == b + "/" + name <==> a == b
  {
    if a + "/" + name == b + "/" + name {
      assert |a| == |b|;
      assert a == (a + "/" + name)[..|a|] && b == (b + "/" + name)[..|b|];
    }
  }

  /** An object goes into the folder under its own name, and stays exactly if it already lies there. */
  lemma MoveKeepsName(site: Site, url: string, folder: string, dir: string, name: string)
    requires '/' !in name
    ensures KeyFromUrl(site, url) == Found(dir + "/" + name) ==>
              PlanMove(site, url, folder) ==
              if dir == folder then InPlace else Relocate(Move(dir + "/" + name, folder + "/" + name))
    ensures name != "" && KeyFromUrl(site, url) == Found(name) ==>
              PlanMove(site, url, folder) == Relocate(Move(name, folder + "/" + name))
  {
    NoUrlIsExternal(site);
    NameIsLastSegment(dir, name);
    SameDirectory(dir, folder, name);
    assert '/' in folder + "/" + name by {
      assert (folder + "/" + name)[|folder|] == '/';
    }
  }

  /** Two moves meet exactly if folders and last segments are the same: no file is taken for another name's. */
  lemma TargetsMeetIff(site: Site, url: string, folder: string, dir: string, name: string,
                       url': string, folder': string, dir': string, name': string, m: Move, m': Move)
    requires '/' !in name && '/' !in name'
    requires PlanMove(site, url, folder) == Relocate(m) && m.oldKey == dir + "/" + name
    requires PlanMove(site, url', folder') == Relocate(m') && m'.oldKey == dir' + "/" + name'
    ensures m.newKey == m'.newKey <==> folder == folder' && name == name'
  {
    NameIsLastSegment(dir, name);
    NameIsLastSegment(dir', name');
    NameIsLastSegment(folder, name);
    NameIsLastSegment(folder', name');
    if m.newKey == m'.newKey {
      assert name == FileName(m.newKey) == name';
      SameDirectory(folder, folder', name);
    }
  }
}
