/**
 The `memes maker` command's request to the image server: one image given by
 URL and one or two caption lines, posted to the meme-maker endpoint; the
 rendered image is sent back as an attachment.

 The JSON body is a tree of the values the request uses; its serialisation
 and the HTTP exchange are not part of this model.
 */
module MemeMaker {
  import opened Base

  const Endpoint: string := "/api/v1/images/meme-maker"

  const FileName: string := "meme_maker.png"

  datatype Json =
    | JString(s: string)
    | JArray(items: seq<Json>)
    | JObject(fields: seq<(string, Json)>)

  /** `{"string": line}`. */
  function Caption(line: string): Json
  {
    JObject([("string", JString(line))])
  }

  /** The request body for an image URL and the two caption options. */
  function RequestBody(imageUrl: string, line1: string, line2: Option<string>): (body: Json)
    ensures body.JObject? && |body.fields| == 2
    ensures body.fields[0].0 == "images" && body.fields[1].0 == "strings"
    ensures body.fields[0].1 == JArray([JObject([("type", JString("url")), ("content", JString(imageUrl))])])
    ensures body.fields[1].1.JArray?
    ensures |body.fields[1].1.items| == (if line2.Some? then 2 else 1)
    ensures body.fields[1].1.items[0] == Caption(line1)
  {
    var captions := [Caption(line1)] + (if line2.Some? then [Caption(line2.value)] else []);
    JObject([("images", JArray([JObject([("type", JString("url")), ("content", JString(imageUrl))])])),
             ("strings", JArray(captions))])
  }

  datatype Request = Request(path: string, body: Json)

  /** What the command does: post the body to the endpoint, then attach the
      answer under a fixed file name. */
  datatype Reply = Reply(fileName: string, image: seq<int>)

  /** The request sent for an image URL and the captions: it goes to the
      meme-maker endpoint, and its body reads back as exactly those inputs. */
  function MemeRequest(imageUrl: string, line1: string, line2: Option<string>): (r: Request)
    ensures r.path == Endpoint
    ensures DecodeBody(r.body) == Some((imageUrl, line1, line2))
  {
    DecodeRequestBody(imageUrl, line1, line2);
    Request(Endpoint, RequestBody(imageUrl, line1, line2))
  }

  /** `execute`, given the image server client: `server` answers a request
      with the rendered image, or None when the call fails and the client's
      exception handler takes over, in which case no file is sent. */
  function Execute(imageUrl: string, line1: string, line2: Option<string>,
                   server: Request -> Option<seq<int>>): (reply: Option<Reply>)
    ensures reply.Some? ==> reply.value.fileName == FileName
    ensures reply.Some? ==> exists q: Request :: q.path == Endpoint && DecodeBody(q.body) == Some((imageUrl, line1, line2))
                                        && server(q) == Some(reply.value.image)
    ensures reply.None? ==> exists q: Request :: q.path == Endpoint && DecodeBody(q.body) == Some((imageUrl, line1, line2))
                                        && server(q).None?
  {
    var q := MemeRequest(imageUrl, line1, line2);
    match server(q)
    case Some(image) => Some(Reply(FileName, image))
    case None => None
  }

  /* ---------------------------------------------------------------------- */
  /* Reading a request back                                                  */
  /* ---------------------------------------------------------------------- */

  function CaptionText(j: Json): Option<string>
  {
    if j.JObject? && |j.fields| == 1 && j.fields[0].0 == "string" && j.fields[0].1.JString?
    then Some(j.fields[0].1.s) else None
  }

  /** The image URL and captions a server reads from a body, if it has the
      shape this command sends. */
  function DecodeBody(body: Json): Option<(string, string, Option<string>)>
  {
    if !(body.JObject? && |body.fields| == 2 && body.fields[0].0 == "images" && body.fields[1].0 == "strings") then None
    else
      var images := body.fields[0].1;
      var strings := body.fields[1].1;
      if !(images.JArray? && |images.items| == 1) then None
      else
        var image := images.items[0];
        if !(image.JObject? && |image.fields| == 2 && image.fields[0] == ("type", JString("url"))
             && image.fields[1].0 == "content" && image.fields[1].1.JString?) then None
        else if !(strings.JArray? && 1 <= |strings.items| <= 2) then None
        else
          var first := CaptionText(strings.items[0]);
          var second := if |strings.items| == 2 then CaptionText(strings.items[1]) else None;
          if first.None? || (|strings.items| == 2 && second.None?) then None
          else Some((image.fields[1].1.s, first.value, second))
  }

  /** The server reads back exactly the URL and captions the command put in. */
  lemma DecodeRequestBody(imageUrl: string, line1: string, line2: Option<string>)
    ensures DecodeBody(RequestBody(imageUrl, line1, line2)) == Some((imageUrl, line1, line2))
  {
  }

  /** Different inputs give different requests. */
  lemma RequestBodyInjective(u1: string, a1: string, b1: Option<string>, u2: string, a2: string, b2: Option<string>)
    requires RequestBody(u1, a1, b1) == RequestBody(u2, a2, b2)
    ensures u1 == u2 && a1 == a2 && b1 == b2
  {
    DecodeRequestBody(u1, a1, b1);
    DecodeRequestBody(u2, a2, b2);
  }
}
