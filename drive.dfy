/**
  The hard-coded table of reference signatures, the extraction of a
  Google Drive file ID from a sharing link (`extract_file_id`), and the
  check that a reference number is a key of the table.
*/
module DriveLinks {

  import opened Wrappers
  import opened Strings

  /** Python's `IndexError`: `[1]` on a split that has one piece only. */
  datatype ExtractError = IndexError

  /** `url.split("/d/")[1].split("/view")[0]`. */
  function ExtractFileId(url: string): (r: Result<string, ExtractError>)
    ensures r.Failure? <==> !Contains(url, "/d/")
    ensures r.Success? ==> !Contains(r.value, "/d/") && !Contains(r.value, "/view")
  {
    var parts := Split(url, "/d/");
    SplitCount(url, "/d/");
    if |parts| < 2 then Failure(IndexError)
    else
      var id := Split(parts[1], "/view")[0];
      SplitPiecesAreFree(url, "/d/");
      SplitPiecesAreFree(parts[1], "/view");
      SplitHeadIsPrefix(parts[1], "/view");
      PrefixIsFree(parts[1], id, "/d/");
      Success(id)
  }

  /** No "/d/" starts inside `id + "/view"` (nor runs from its end into `q`). */
  lemma NoMarkerBeforeView(id: string, q: string)
    requires !Contains(id + "/", "/d/")
    ensures forall j :: 0 <= j < |id| + 5 ==> !OccursAt(id + "/view" + q, "/d/", j)
  {
    var s := id + "/view" + q;
    var n: nat := |id| + 1;
    assert s[..n] == id + "/";
    assert s[|id|..|id| + 5] == "/view";
    assert forall k :: |id| < k < |id| + 5 ==> s[k] != '/' by {
      forall k | |id| < k < |id| + 5 ensures s[k] != '/' {
        assert s[k] == s[|id|..|id| + 5][k - |id|];
      }
    }
    forall j | 0 <= j < |id| + 5 && OccursAt(s, "/d/", j) ensures false {
      OccurrenceChar(s, "/d/", j, 0);
      OccurrenceChar(s, "/d/", j, 2);
      if j + 3 <= n {
        OccursInShorterPrefix(s, "/d/", n, j);
      }
    }
  }

  /** The "/view" written after `id` is the leftmost one when `id` has none. */
  lemma ViewIsFirst(id: string)
    requires !Contains(id, "/view")
    ensures !Contains(id + "/vie", "/view")
  {
    var t := id + "/vie";
    assert t[..|id|] == id;
    assert forall k :: |id| <= k < |t| ==> t[k] != 'w' by {
      forall k | |id| <= k < |t| ensures t[k] != 'w' {
        assert t[k] == "/vie"[k - |id|];
      }
    }
    forall j | OccursAt(t, "/view", j) ensures false {
      OccurrenceChar(t, "/view", j, 4);
      if j + 5 <= |id| {
        OccursInShorterPrefix(t, "/view", |id|, j);
      }
    }
  }

  /**
    For a link `p + "/d/" + id + "/view" + q` in which the "/d/" after `p`
    is the first one, the ID is followed by "/view", and the ID holds no
    "/view" of its own, the extracted ID is exactly `id`.
  */
  lemma ExtractFileIdOfLink(p: string, id: string, q: string)
    requires !Contains(p + "/d", "/d/")
    requires !Contains(id + "/", "/d/")
    requires !Contains(id, "/view")
    ensures ExtractFileId(p + "/d/" + id + "/view" + q) == Success(id)
  {
    var rest := id + "/view" + q;
    assert p + "/d/" + id + "/view" + q == p + "/d/" + rest;
    assert "/d/"[..2] == "/d";
    SplitAtFirst(p, "/d/", rest);
    NoMarkerBeforeView(id, q);
    SplitKeepsHead(id + "/view", q, "/d/");
    var h := Split(rest, "/d/")[0];
    var q' := h[|id| + 5..];
    assert h == id + "/view" + q';
    assert "/view"[..4] == "/vie";
    ViewIsFirst(id);
    SplitAtFirst(id, "/view", q');
  }

  /** The ID of each reference signature's file, keyed by reference number. */
  const ReferenceIds: map<int, string> := map[
    1 := "1xtzL6-TpN4EVyaFUF4MM4ssjAZqZutF8",
    2 := "1UpPfOlDXoWwB5Ub530uhUrOVnUnWYvpQ",
    3 := "1-M_PND4PK3tSLY705olnsswOk5bNoOFa",
    4 := "1FL1uLEXlWW-nQYNoaBARiVs0N0XAwsvW",
    5 := "1nZhl1CkvuH-KA4ErAslD-91W2QnBajhx",
    6 := "1SHEgykTZN9lGdDaR6PTl9P01-Zlpu6cZ",
    7 := "1gRE9SmvT7OBw8JYCyx7ehMs3lBpiX-Bp"
  ]

  /**
    `drive_links`: the sharing link of each reference signature. All seven
    links have the same shape and differ only in the file ID.
  */
  const Links: map<int, string> := map n | n in ReferenceIds :: ShareLink(ReferenceIds[n])

  /** A sharing link of the shape every entry of the table has. */
  function ShareLink(id: string): string
  {
    "https://drive.google.com/file" + "/d/" + id + "/view" + "?usp=drive_link"
  }

  /** An ID without '/' holds no "/view" and no "/d/", even one ending at a following '/'. */
  lemma SlashFreeId(id: string)
    requires forall k :: 0 <= k < |id| ==> id[k] != '/'
    ensures !Contains(id + "/", "/d/") && !Contains(id, "/view")
  {
    var t := id + "/";
    forall j | OccursAt(t, "/d/", j) ensures false {
      OccurrenceChar(t, "/d/", j, 0);
    }
    forall j | OccursAt(id, "/view", j) ensures false {
      OccurrenceChar(id, "/view", j, 0);
    }
  }

  /** The "/d/" of a sharing link is the first one. */
  lemma ShareLinkMarkerIsFirst()
    ensures !Contains("https://drive.google.com/file" + "/d", "/d/")
  {
    var p := "https://drive.google.com/file" + "/d";
    forall j | OccursAt(p, "/d/", j) ensures false {
      OccurrenceChar(p, "/d/", j, 0);
      OccurrenceChar(p, "/d/", j, 1);
      OccurrenceChar(p, "/d/", j, 2);
    }
  }

  /** Extraction from a sharing link gives back its ID whenever the ID has no '/'. */
  lemma ShareLinkId(id: string)
    requires forall k :: 0 <= k < |id| ==> id[k] != '/'
    ensures ExtractFileId(ShareLink(id)) == Success(id)
  {
    ShareLinkMarkerIsFirst();
    SlashFreeId(id);
    ExtractFileIdOfLink("https://drive.google.com/file", id, "?usp=drive_link");
  }

  /** The table is keyed by the reference numbers 1 to 7. */
  lemma LinkKeys()
    ensures forall n :: n in Links <==> 1 <= n <= 7
  {
  }

  /** The seven IDs have 33 characters and no '/'. */
  lemma ReferenceIdsShape()
    ensures forall n :: n in ReferenceIds ==> |ReferenceIds[n]| == 33
    ensures forall n, k :: n in ReferenceIds && 0 <= k < |ReferenceIds[n]| ==> ReferenceIds[n][k] != '/'
  {
  }

  /** Every link of the table yields its 33-character ID. */
  lemma TableIds()
    ensures forall n :: n in Links ==>
      ExtractFileId(Links[n]) == Success(ReferenceIds[n]) && |ReferenceIds[n]| == 33
  {
    ReferenceIdsShape();
    forall n | n in Links
      ensures ExtractFileId(Links[n]) == Success(ReferenceIds[n])
    {
      ShareLinkId(ReferenceIds[n]);
    }
  }
}
