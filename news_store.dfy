/** The `insights_news` table and the `uploads` directory, and the four news
    handlers that change or read them: `createNews`, `updateNews`,
    `deleteNews` and `getNews`. */
module News {
  import opened JsValues
  import opened Text
  import opened Tags
  import opened Validation
  import opened Listing

  /** `JSON.stringify`: a parameter of the model, not defined here. */
  type JsonStringify = Value -> string

  /** SQL `column LIKE pattern` under the table's collation: a parameter of
      the model, not defined here. */
  type LikeMatch = (Value, string) -> bool

  /** `process.env.BASE_URL || "http://localhost:5000"` */
  function BaseUrl(env: Option<string>): (r: string)
    ensures r != ""
    ensures env.Some? && env.value != "" ==> r == env.value
  {
    if env.Some? && env.value != "" then env.value else "http://localhost:5000"
  }

  const UploadsPath := "/uploads/"

  /** `getImageUrl`: the public URL of a stored file, or null when there is
      no filename. */
  function ImageUrl(base: string, image: Option<string>): (r: Option<string>)
    ensures r.Some? <==> HasFile(image)
    ensures r.Some? ==> |r.value| > |base + UploadsPath|
    ensures r.Some? ==> r.value[..|base + UploadsPath|] == base + UploadsPath
  {
    if HasFile(image) then Some(base + UploadsPath + image.value) else None
  }

  /** The filename a URL built by ImageUrl names: what follows
      `base + "/uploads/"`. */
  function FileOfUrl(base: string, url: string): (r: Option<string>)
    ensures r.Some? ==> base + UploadsPath + r.value == url
  {
    var prefix := base + UploadsPath;
    if |prefix| <= |url| && url[..|prefix|] == prefix then Some(url[|prefix|..]) else None
  }

  /** An image URL leads back to the file it was built from. */
  lemma ImageUrlNamesFile(base: string, image: Option<string>)
    requires HasFile(image)
    ensures FileOfUrl(base, ImageUrl(base, image).value) == image
  {
    var prefix := base + UploadsPath;
    var url := prefix + image.value;
    assert url[..|prefix|] == prefix;
    assert url[|prefix|..] == image.value;
  }

  /** A row of `insights_news`. The tags are stored as their JSON text; the
      description is stored as it was sent, markup included. */
  datatype Row = Row(name: Value, date: Value, title: Value, tag: string, description: Value,
                     image: Option<string>)

  /** The `news` object of a create or update response. */
  datatype NewsItem = NewsItem(name: Value, date: Value, title: Value, tag: Value, description: Value,
                               imageUrl: Option<string>)

  /** A listed row: its columns and its image URL. */
  datatype ListItem = ListItem(id: int, row: Row, imageUrl: Option<string>)

  /** The body of a `getNews` response. */
  datatype ListPage = ListPage(total: nat, page: int, limit: int, totalPages: nat, data: seq<ListItem>)

  datatype Reply =
    | Created(news: NewsItem)
    | Updated(news: NewsItem)
    | Invalid(errors: map<Field, string>)
    | NotFound
    | Deleted

  function Status(r: Reply): int {
    match r
    case Created(_) => 201
    case Updated(_) => 200
    case Invalid(_) => 400
    case NotFound => 404
    case Deleted => 200
  }

  function ReplyMessage(r: Reply): string {
    match r
    case Created(_) => "News created successfully"
    case Updated(_) => "News updated successfully"
    case Invalid(_) => "Validation failed"
    case NotFound => "News not found"
    case Deleted => "Deleted successfully"
  }

  /** The file a filename refers to, as a set: empty when there is none. */
  function FileSet(image: Option<string>): set<string> {
    if HasFile(image) then {image.value} else {}
  }

  /** `ORDER BY date DESC` reads the `date` column of each row through the
      database's ordering of dates, `dateRank`. */
  function RankOf(dateRank: Value -> int, rs: map<int, Row>): int -> int {
    id => if id in rs then dateRank(rs[id].date) else 0
  }

  /** `%term%`: the trimmed search term between two wildcards. */
  function Pattern(search: string): (r: string)
    ensures |r| == |Trim(search)| + 2
    ensures r[0] == '%' && r[|r| - 1] == '%' && r[1..|r| - 1] == Trim(search)
  {
    "%" + Trim(search) + "%"
  }

  /** The four columns the search looks in. */
  function SearchedColumns(r: Row): seq<Value> {
    [r.name, r.title, Str(r.tag), r.description]
  }

  /** `name LIKE ? OR title LIKE ? OR tag LIKE ? OR description LIKE ?`: some
      searched column matches. */
  predicate RowMatches(like: LikeMatch, r: Row, pattern: string)
    ensures RowMatches(like, r, pattern) <==>
      exists k :: 0 <= k < |SearchedColumns(r)| && like(SearchedColumns(r)[k], pattern)
  {
    var cols := SearchedColumns(r);
    assert cols[0] == r.name && cols[1] == r.title && cols[2] == Str(r.tag) && cols[3] == r.description;
    like(r.name, pattern) || like(r.title, pattern) || like(Str(r.tag), pattern)
    || like(r.description, pattern)
  }

  /** The rows a listing covers: all of them when the trimmed search text is
      empty, otherwise those the search condition accepts. Count and page
      both use this one set. */
  function Selected(like: LikeMatch, rs: map<int, Row>, search: string): (r: set<int>)
    ensures r <= rs.Keys
    ensures Trim(search) == "" ==> r == rs.Keys
  {
    if Trim(search) != "" then set id | id in rs && RowMatches(like, rs[id], Pattern(search))
    else rs.Keys
  }

  /** A non-blank search keeps exactly the rows that match it. */
  lemma SelectedMatch(like: LikeMatch, rs: map<int, Row>, search: string, id: int)
    requires Trim(search) != ""
    ensures id in Selected(like, rs, search) <==> id in rs && RowMatches(like, rs[id], Pattern(search))
  {
  }

  /** `rows.map((item) => ({ ...item, imageUrl }))` */
  function Items(rs: map<int, Row>, base: string, ids: seq<int>): (r: seq<ListItem>)
    requires forall k :: 0 <= k < |ids| ==> ids[k] in rs
    ensures |r| == |ids|
    ensures forall k :: 0 <= k < |r| ==>
      r[k].id == ids[k] && r[k].row == rs[ids[k]] && r[k].imageUrl == ImageUrl(base, rs[ids[k]].image)
  {
    seq(|ids|, k requires 0 <= k < |ids| => ListItem(ids[k], rs[ids[k]], ImageUrl(base, rs[ids[k]].image)))
  }

  class NewsStore {
    /** `insights_news`, by id. */
    var rows: map<int, Row>
    /** The names of the files in `uploads`. */
    var files: set<string>
    /** The table's next AUTO_INCREMENT id. */
    var nextId: int

    const baseUrl: string
    const parse: JsonParse
    const stringify: JsonStringify
    const dateRank: Value -> int
    const like: LikeMatch

    /** Ids are below the auto-increment counter, every stored image is a
        file in `uploads`, and no two rows share a file. */
    predicate Valid()
      reads this
    {
      && (forall id :: id in rows ==> id < nextId)
      && (forall id :: id in rows && HasFile(rows[id].image) ==> rows[id].image.value in files)
      && (forall a, b :: a in rows && b in rows && a != b && HasFile(rows[a].image) ==>
            rows[a].image != rows[b].image)
    }

    /** What the upload middleware guarantees before a handler runs: an
        uploaded file is already in `uploads`, under a name no row uses. */
    predicate UploadReady(upload: Option<string>)
      reads this
    {
      HasFile(upload) ==>
        && upload.value in files
        && forall id :: id in rows ==> rows[id].image != upload
    }

    constructor(env: Option<string>, existing: set<string>, parse: JsonParse, stringify: JsonStringify,
                dateRank: Value -> int, like: LikeMatch)
      ensures Valid()
      ensures rows == map[] && files == existing && nextId == 1
      ensures baseUrl == BaseUrl(env)
      ensures this.parse == parse && this.stringify == stringify
      ensures this.dateRank == dateRank && this.like == like
    {
      rows := map[];
      files := existing;
      nextId := 1;
      baseUrl := BaseUrl(env);
      this.parse := parse;
      this.stringify := stringify;
      this.dateRank := dateRank;
      this.like := like;
    }

    /** The row a valid create or update writes. */
    function NewRow(p: Payload, image: Option<string>): Row {
      Row(p.name, p.date, p.title, stringify(ParseTags(p.tag, parse)), p.description, image)
    }

    /** The `news` object a create or update answers with: the tags as
        parsed, the description as sent. */
    function Answer(p: Payload, image: Option<string>): NewsItem {
      NewsItem(p.name, p.date, p.title, ParseTags(p.tag, parse), p.description, ImageUrl(baseUrl, image))
    }

    /** `createNews`. A request failing any check is answered 400 with every
        failing field, its uploaded file is deleted and no row is written.
        Otherwise exactly one row is inserted under a fresh id, holding the
        uploaded file, and the answer is 201. */
    method Create(p: Payload, upload: Option<string>) returns (reply: Reply)
      requires Valid() && UploadReady(upload)
      modifies this
      ensures Valid()
      ensures CreateFailures(p, upload, parse) != {} ==>
        && reply.Invalid? && Status(reply) == 400 && ReplyMessage(reply) == "Validation failed"
        && reply.errors.Keys == CreateFailures(p, upload, parse)
        && WellFormedErrors(reply.errors)
        && rows == old(rows)
        && files == old(files) - FileSet(upload)
        && nextId == old(nextId)
      ensures CreateFailures(p, upload, parse) == {} ==>
        && HasFile(upload)
        && old(nextId) !in old(rows)
        && rows == old(rows)[old(nextId) := NewRow(p, upload)]
        && |rows| == |old(rows)| + 1
        && files == old(files)
        && nextId == old(nextId) + 1
        && reply == Created(Answer(p, upload)) && Status(reply) == 201
        && ReplyMessage(reply) == "News created successfully"
    {
      var errors := CheckCreateFields(p, upload, parse);
      if errors.Keys != {} {
        DiscardUpload(upload);
        reply := Invalid(errors);
        return;
      }
      var parsedTags := ParseTags(p.tag, parse);
      Insert(Row(p.name, p.date, p.title, stringify(parsedTags), p.description, upload));
      reply := Created(NewsItem(p.name, p.date, p.title, parsedTags, p.description, ImageUrl(baseUrl, upload)));
    }

    /** Deletes a rejected upload from `uploads`, when there is one. No row
        refers to it, so the store stays valid. */
    method DiscardUpload(upload: Option<string>)
      requires Valid() && UploadReady(upload)
      modifies this
      ensures Valid()
      ensures rows == old(rows) && nextId == old(nextId)
      ensures files == old(files) - FileSet(upload)
    {
      if HasFile(upload) {
        files := files - {upload.value};
      }
    }

    /** `INSERT INTO insights_news`: the row is stored under the next
        auto-increment id, which no row has yet. */
    method Insert(row: Row)
      requires Valid() && HasFile(row.image) && UploadReady(row.image)
      modifies this
      ensures Valid()
      ensures old(nextId) !in old(rows)
      ensures rows == old(rows)[old(nextId) := row] && |rows| == |old(rows)| + 1
      ensures files == old(files) && nextId == old(nextId) + 1
    {
      rows := rows[nextId := row];
      nextId := nextId + 1;
    }

    /** `updateNews`. An unknown id is answered 404 before any check, and
        nothing changes (an uploaded file stays in `uploads`). A request
        failing a shared check is answered 400, its uploaded file is deleted
        and no row changes; there is no image check. Otherwise the row is
        rewritten: a new file replaces the old one, which is deleted, and
        without a new file the old one is kept. */
    method Update(id: int, p: Payload, upload: Option<string>) returns (reply: Reply)
      requires Valid() && UploadReady(upload)
      modifies this
      ensures Valid()
      ensures nextId == old(nextId)
      ensures id !in old(rows) ==>
        reply == NotFound && Status(reply) == 404 && ReplyMessage(reply) == "News not found"
        && rows == old(rows) && files == old(files)
      ensures id in old(rows) && SharedFailures(p, parse) != {} ==>
        && reply.Invalid? && Status(reply) == 400 && ReplyMessage(reply) == "Validation failed"
        && reply.errors.Keys == SharedFailures(p, parse)
        && WellFormedErrors(reply.errors)
        && rows == old(rows)
        && files == old(files) - FileSet(upload)
      ensures id in old(rows) && SharedFailures(p, parse) == {} ==>
        var kept := old(rows)[id].image;
        var image := if HasFile(upload) then upload else kept;
        && rows == old(rows)[id := NewRow(p, image)]
        && files == old(files) - (if HasFile(upload) then FileSet(kept) else {})
        && reply == Updated(Answer(p, image)) && Status(reply) == 200
        && ReplyMessage(reply) == "News updated successfully"
    {
      if id !in rows {
        return NotFound;
      }
      var errors := CheckSharedFields(p, parse);
      if errors.Keys != {} {
        DiscardUpload(upload);
        reply := Invalid(errors);
        return;
      }
      var imageToSave := Rewrite(id, p, upload);
      reply := Updated(NewsItem(p.name, p.date, p.title, ParseTags(p.tag, parse), p.description,
                                ImageUrl(baseUrl, imageToSave)));
    }

    /** The image step and the `UPDATE` of `updateNews`: a new upload
        replaces the row's file, which is deleted; without one the row keeps
        its file. The row is rewritten with the checked fields. */
    method Rewrite(id: int, p: Payload, upload: Option<string>) returns (imageToSave: Option<string>)
      requires Valid() && id in rows && UploadReady(upload)
      modifies this
      ensures Valid()
      ensures imageToSave == if HasFile(upload) then upload else old(rows)[id].image
      ensures rows == old(rows)[id := NewRow(p, imageToSave)] && nextId == old(nextId)
      ensures files == old(files) - (if HasFile(upload) then FileSet(old(rows)[id].image) else {})
    {
      var existing := rows[id];
      imageToSave := existing.image;
      if HasFile(upload) {
        if HasFile(existing.image) {
          files := files - {existing.image.value};
        }
        imageToSave := upload;
      }
      var parsedTags := ParseTags(p.tag, parse);
      rows := rows[id := Row(p.name, p.date, p.title, stringify(parsedTags), p.description, imageToSave)];
    }

    /** `deleteNews`: the row's file, if it has one, is deleted, then the
        row. Every other row and file stays, and the answer is the same
        whether or not the id existed. */
    method Delete(id: int) returns (reply: Reply)
      requires Valid()
      modifies this
      ensures Valid()
      ensures reply == Deleted && Status(reply) == 200 && ReplyMessage(reply) == "Deleted successfully"
      ensures rows == old(rows) - {id}
      ensures files == old(files) - (if id in old(rows) then FileSet(old(rows)[id].image) else {})
      ensures nextId == old(nextId)
    {
      if id in rows && HasFile(rows[id].image) {
        files := files - {rows[id].image.value};
      }
      rows := rows - {id};
      reply := Deleted;
    }

    /** `getNews`: the count of the selected rows, and the page of them at
        `(page - 1) * limit` in listing order, at most `limit` long, each
        with its image URL. */
    method List(page: int, limit: int, search: string) returns (res: ListPage)
      requires page >= 1 && limit >= 1
      ensures res.total == |Selected(like, rows, search)|
      ensures res.page == page && res.limit == limit
      ensures res.totalPages == CeilDiv(res.total, limit)
      ensures |res.data| <= limit
      ensures |res.data| == |PageIds(Selected(like, rows, search), RankOf(dateRank, rows), page, limit)|
      ensures forall i :: 0 <= i < |res.data| ==>
        && res.data[i].id == PageIds(Selected(like, rows, search), RankOf(dateRank, rows), page, limit)[i]
        && res.data[i].id in Selected(like, rows, search)
        && res.data[i].row == rows[res.data[i].id]
        && res.data[i].imageUrl == ImageUrl(baseUrl, rows[res.data[i].id].image)
      ensures forall i, j :: 0 <= i < j < |res.data| ==>
        Before(RankOf(dateRank, rows), res.data[i].id, res.data[j].id)
    {
      var selected := Selected(like, rows, search);
      var total := |selected|;
      var rank := RankOf(dateRank, rows);
      var ids := PageIds(selected, rank, page, limit);
      PageSorted(selected, rank, page, limit);
      var data := Items(rows, baseUrl, ids);
      res := ListPage(total, page, limit, CeilDiv(total, limit), data);
    }

    /** Every image URL the store hands out names a file that is in
        `uploads`. */
    lemma ImageUrlResolves(id: int)
      requires Valid() && id in rows && HasFile(rows[id].image)
      ensures FileOfUrl(baseUrl, ImageUrl(baseUrl, rows[id].image).value).Some?
      ensures FileOfUrl(baseUrl, ImageUrl(baseUrl, rows[id].image).value).value in files
    {
      ImageUrlNamesFile(baseUrl, rows[id].image);
    }
  }

  /** The tags stored by a create or update come back unchanged when the
      stored text is sent again as a tag, provided JSON.parse undoes
      JSON.stringify on them. */
  lemma StoredTagsRoundTrip(tags: Value, parse: JsonParse, stringify: JsonStringify)
    requires stringify(tags) != "" && parse(stringify(tags)) == Some(tags)
    ensures ParseTags(Str(stringify(tags)), parse) == tags
  {
  }
}
