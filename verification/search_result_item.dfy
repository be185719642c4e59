/** One result card (components/SearchResultItem.tsx). Its `getVsiPath` and
    `generateCommand` are the same text as lib/generateCommand.ts, so the card uses the
    `GdalCommand` definitions. The card keeps the output file name the user types and, on
    submit, produces the command for its scene. */
module SearchResultItem {
  import opened Wrappers
  import opened Catalog
  import opened GdalCommand

  /** `fileName || "output"`: only the empty name falls back. */
  function OutputName(fileName: string): (r: string)
    ensures r != ""
    ensures r == fileName <==> fileName != ""
  {
    if fileName == "" then "output" else fileName
  }

  class ResultItem {
    const result: Item
    var fileName: string

    constructor (result: Item)
      ensures this.result == result && fileName == ""
    {
      this.result := result;
      fileName := "";
    }

    /** The name input's `onChange`. */
    method ChangeFileName(value: string)
      modifies this
      ensures fileName == value
    {
      fileName := value;
    }

    /** `onSubmitCommand`: the payload handed to the clipboard. Submitting changes no state. */
    method SubmitCommand() returns (payload: Result<string, string>)
      ensures payload == GenerateCommand(OutputName(fileName), result.assets)
      ensures payload.Ok? <==> "B04" in result.assets && "B03" in result.assets && "B02" in result.assets
    {
      var file := OutputName(fileName);
      payload := GenerateCommand(file, result.assets);
    }
  }

  /** With no name typed the command writes `output.tif`. */
  lemma EmptyNameWritesOutput(assets: map<string, string>)
    requires "B04" in assets && "B03" in assets && "B02" in assets
    requires Quote !in assets["B04"] && Quote !in assets["B03"] && Quote !in assets["B02"]
    ensures ParseCommand(GenerateCommand(OutputName(""), assets).value)
         == Some(Parsed("output", [VsiS3Path(assets["B04"]), VsiS3Path(assets["B03"]), VsiS3Path(assets["B02"])]))
  {
    GenerateCommandLayout("output", assets);
    NormalizeNameExamples();
  }

  /** A name of spaces is not empty, so it is used: "   " writes `___.tif`. */
  lemma BlankNameWritesUnderscores(assets: map<string, string>)
    requires "B04" in assets && "B03" in assets && "B02" in assets
    requires Quote !in assets["B04"] && Quote !in assets["B03"] && Quote !in assets["B02"]
    ensures ParseCommand(GenerateCommand(OutputName("   "), assets).value)
         == Some(Parsed("___", [VsiS3Path(assets["B04"]), VsiS3Path(assets["B03"]), VsiS3Path(assets["B02"])]))
  {
    GenerateCommandLayout("   ", assets);
    NormalizeNameExamples();
  }

  /** "My Output" writes `my_output.tif`. */
  lemma MixedCaseNameWritesSnakeCase(assets: map<string, string>)
    requires "B04" in assets && "B03" in assets && "B02" in assets
    requires Quote !in assets["B04"] && Quote !in assets["B03"] && Quote !in assets["B02"]
    ensures ParseCommand(GenerateCommand(OutputName("My Output"), assets).value)
         == Some(Parsed("my_output", [VsiS3Path(assets["B04"]), VsiS3Path(assets["B03"]), VsiS3Path(assets["B02"])]))
  {
    GenerateCommandLayout("My Output", assets);
    NormalizeNameExamples();
  }
}
