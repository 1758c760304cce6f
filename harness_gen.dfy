/**
 * Code generation of `generateMainFile` and `runTestCases`
 * (src/commands/runtestcases.ts): every parameter type is sent through an
 * if-chain to a C++ snippet that reads the argument from the input file, every
 * parameter becomes an argument expression, helper snippets are chosen from the
 * return and parameter types, and everything is spliced with the user's source
 * into the text of `main.cpp`.
 *
 * The generating functions take the template text as a `Templates` value;
 * `SourceTemplates` is the source's text, character for character, and
 * `SourceTemplatesShape` proves the few facts about it that the properties use.
 */
module HarnessGen {

  import opened Wrappers
  import opened Text
  import opened Signature

  // ---------------------------------------------------------------- template text

  /** The decode snippets, the two helper snippets, and the fixed text of `main.cpp`
      between its spliced parts. */
  datatype Templates = Templates(
    intVector: string, stringVector: string, intMatrix: string, tree: string, linkedList: string,
    intScalar: string, stringLine: string, charScalar: string, floatScalar: string, boolScalar: string,
    vectorHelper: string, boolHelper: string,
    prelude: string, afterUserCode: string, afterHelpers: string, afterTestDir: string,
    afterInputReading: string, epilogue: string)

  // The snippets of `generateInputReadingCode`, verbatim.

  const IntVectorDecode :=
    "\n"
    + "        int n;\n"
    + "        inFile >> n;\n"
    + "        vector<int> arr(n);\n"
    + "        for (int i = 0; i < n; i++) {\n"
    + "            inFile >> arr[i];\n"
    + "        }"

  const StringVectorDecode :=
    "\n"
    + "        int n;\n"
    + "        inFile >> n;\n"
    + "        vector<string> arr(n);\n"
    + "        for (int i = 0; i < n; i++) {\n"
    + "            inFile >> arr[i];\n"
    + "        }"

  const IntMatrixDecode :=
    "\n"
    + "        int rows, cols;\n"
    + "        inFile >> rows >> cols;\n"
    + "        vector<vector<int>> matrix(rows, vector<int>(cols));\n"
    + "        for (int i = 0; i < rows; i++) {\n"
    + "            for (int j = 0; j < cols; j++) {\n"
    + "                inFile >> matrix[i][j];\n"
    + "            }\n"
    + "        }"

  const TreeDecode :=
    "\n"
    + "        string line;\n"
    + "        inFile >> line;\n"
    + "        " + "TreeNode* root = deserialize(line);"

  const LinkedListDecode :=
    "\n"
    + "        int n;\n"
    + "        inFile >> n;\n"
    + "        vector<int> arr(n);\n"
    + "        for (int i = 0; i < n; i++) {\n"
    + "            inFile >> arr[i];\n"
    + "        }\n"
    + "        " + "ListNode* head = createLinkedList(arr);"

  const IntDecode :=
    "int num;\n"
    + "inFile >> num;"

  const StringDecode :=
    "\n"
    + "        string str;\n"
    + "        getline(inFile, str);  // Use getline to handle spaces and special characters"

  const CharDecode :=
    "char c;\n"
    + "inFile >> c;"

  const FloatDecode :=
    "double num;\n"
    + "inFile >> num;"

  const BoolDecode :=
    "bool flag;\n"
    + "inFile >> flag;"

  // The helper snippets of `generateMainFile`, verbatim.

  const VectorToStringHelper :=
    "\n"
    + "// Helper function to convert vector<T> to string\n"
    + "template <typename T>\n"
    + "string vectorToString(const vector<T>& vec) {\n"
    + "    stringstream ss;\n"
    + "    ss << \"[\";\n"
    + "    for (size_t i = 0; i < vec.size(); i++) {\n"
    + "        ss << vec[i];\n"
    + "        if (i != vec.size() - 1) ss << \", \";\n"
    + "    }\n"
    + "    ss << \"]\";\n"
    + "    return ss.str();\n"
    + "}"

  const BoolToStringHelper :=
    "\n"
    + "// Helper function to convert bool to string\n"
    + "string boolToString(bool value) {\n"
    + "    return value ? \"true\" : \"false\";\n"
    + "}"

  // The fixed text of the `main.cpp` template between the spliced parts, verbatim.

  const MainPrelude :=
    "\n"
    + "#include <iostream>\n"
    + "#include <vector>\n"
    + "#include <fstream>\n"
    + "#include <filesystem>\n"
    + "#include <string>\n"
    + "#include <cctype>\n"
    + "#include <algorithm>\n"
    + "using namespace std;\n"
    + "\n"

  const MainAfterUserCode :=
    "\n"
    + "\n"

  const MainAfterHelpers :=
    "\n"
    + "\n"
    + "int main() {\n"
    + "    string testDir = \""

  const MainAfterTestDir :=
    ";\n"
    + "    vector<string> inFiles, outFiles;\n"
    + "    \n"
    + "    for (const auto& entry : filesystem::directory_iterator(testDir)) {\n"
    + "        string filename = entry.path().filename().string();\n"
    + "        if (filename.find(\"input\")) {\n"
    + "            inFiles.push_back(testDir + filename);\n"
    + "            outFiles.push_back(testDir + \"output\" + filename.substr(5));\n"
    + "        }\n"
    + "    }\n"
    + "    \n"
    + "    int totalTests = inFiles.size();\n"
    + "    int passedTests = 0;\n"
    + "    \n"
    + "    for (int test = 0; test < totalTests; test++) {\n"
    + "        ifstream inFile(inFiles[test]);\n"
    + "        ifstream expectedFile(outFiles[test]);\n"
    + "        \n"
    + "        try {\n"
    + "            // Read inputs\n"
    + "            "

  const MainAfterInputReading :=
    "\n"
    + "            \n"
    + "            // Get expected output\n"
    + "            string expected;\n"
    + "            getline(expectedFile, expected);\n"
    + "            \n"
    + "            // Call user's function\n"
    + "            auto result = "

  const MainEpilogue :=
    ";\n"
    + "            \n"
    + "            // Convert result to string for comparison\n"
    + "            string resultStr;\n"
    + "            if constexpr (is_same_v<decltype(result), vector<string>>) {\n"
    + "                resultStr = vectorToString(result);\n"
    + "            } else if constexpr (is_same_v<decltype(result), vector<int>>) {\n"
    + "                resultStr = vectorToString(result);\n"
    + "            } else if constexpr (is_same_v<decltype(result), bool>) {\n"
    + "                resultStr = boolToString(result);\n"
    + "            } else {\n"
    + "                resultStr = to_string(result);\n"
    + "            }\n"
    + "            \n"
    + "            if (resultStr == expected) {\n"
    + "                cout << \"Test case \" << (test + 1) << \": Passed ✓\" << endl;\n"
    + "                passedTests++;\n"
    + "            } else {\n"
    + "                cout << \"Test case \" << (test + 1) << \": Failed ✗\" << endl;\n"
    + "                cout << \"Expected: \" << expected << endl;\n"
    + "                cout << \"Got: \" << resultStr << endl;\n"
    + "            }\n"
    + "        } catch (const exception& e) {\n"
    + "            cout << \"Test case \" << (test + 1) << \": Error!\" << endl;\n"
    + "            cout << \"Error message: \" << e.what() << endl;\n"
    + "        }\n"
    + "        \n"
    + "        inFile.close();\n"
    + "        expectedFile.close();\n"
    + "    }\n"
    + "    \n"
    + "    cout << \"\\nSummary: \" << passedTests << \"/\" << totalTests << \" test cases passed.\" << endl;\n"
    + "    return 0;\n"
    + "}"

  const SourceTemplates := Templates(
    IntVectorDecode, StringVectorDecode, IntMatrixDecode, TreeDecode, LinkedListDecode,
    IntDecode, StringDecode, CharDecode, FloatDecode, BoolDecode,
    VectorToStringHelper, BoolToStringHelper,
    MainPrelude, MainAfterUserCode, MainAfterHelpers, MainAfterTestDir,
    MainAfterInputReading, MainEpilogue)

  /** A non-empty text whose last character is not a line break. */
  predicate EndsInCode(s: string)
  {
    s != "" && s[|s| - 1] != '\n'
  }

  /** The facts about the template text that the properties below rely on. */
  predicate Shaped(tp: Templates)
  {
    && EndsInCode(tp.intVector) && EndsInCode(tp.stringVector) && EndsInCode(tp.intMatrix)
    && EndsInCode(tp.tree) && EndsInCode(tp.linkedList) && EndsInCode(tp.intScalar)
    && EndsInCode(tp.stringLine) && EndsInCode(tp.charScalar) && EndsInCode(tp.floatScalar)
    && EndsInCode(tp.boolScalar) && EndsInCode(tp.boolHelper)
    && EndsWith(tp.tree, "TreeNode* root = deserialize(line);")
    && EndsWith(tp.linkedList, "ListNode* head = createLinkedList(arr);")
    && |tp.vectorHelper| > |tp.boolHelper| + 4
  }

  lemma SourceTemplatesShape()
    ensures Shaped(SourceTemplates)
  {
    SourceSnippetsEndInCode();
    SourceDeclarations();
  }

  lemma SourceSnippetsEndInCode()
    ensures EndsInCode(IntVectorDecode) && EndsInCode(StringVectorDecode) && EndsInCode(IntMatrixDecode)
    ensures EndsInCode(TreeDecode) && EndsInCode(LinkedListDecode) && EndsInCode(IntDecode)
    ensures EndsInCode(StringDecode) && EndsInCode(CharDecode) && EndsInCode(FloatDecode)
    ensures EndsInCode(BoolDecode) && EndsInCode(BoolToStringHelper)
    ensures |VectorToStringHelper| > |BoolToStringHelper| + 4
  {
  }

  lemma SourceDeclarations()
    ensures EndsWith(TreeDecode, "TreeNode* root = deserialize(line);")
    ensures EndsWith(LinkedListDecode, "ListNode* head = createLinkedList(arr);")
  {
    EndsWithLast("\n" + "        string line;\n" + "        inFile >> line;\n" + "        ",
                 "TreeNode* root = deserialize(line);");
    EndsWithLast(
      "\n" + "        int n;\n" + "        inFile >> n;\n" + "        vector<int> arr(n);\n"
      + "        for (int i = 0; i < n; i++) {\n" + "            inFile >> arr[i];\n" + "        }\n" + "        ",
      "ListNode* head = createLinkedList(arr);");
  }

  // ---------------------------------------------------------------- decoding one parameter

  /** The branch of `generateInputReadingCode` a parameter type takes. */
  datatype Decoder =
    | IntVector | StringVector | IntMatrix | Tree | LinkedList
    | IntScalar | StringLine | CharScalar | FloatScalar | BoolScalar
    | Unsupported

  /** The if-chain: containment tests for the structured types, in this order,
      then exact comparison for the scalar types. */
  function Dispatch(t: string): Decoder
  {
    if Contains(t, "vector<int>") then IntVector
    else if Contains(t, "vector<string>") then StringVector
    else if Contains(t, "vector<vector<int>>") then IntMatrix
    else if Contains(t, "TreeNode*") then Tree
    else if Contains(t, "ListNode*") then LinkedList
    else if t == "int" then IntScalar
    else if t == "string" then StringLine
    else if t == "char" then CharScalar
    else if t == "double" || t == "float" then FloatScalar
    else if t == "bool" then BoolScalar
    else Unsupported
  }

  const UnsupportedPrefix := "// Unsupported type: "

  /** `generateInputReadingCode(t)`. */
  function InputReadingCode(tp: Templates, t: string): (r: string)
    ensures Dispatch(t) == Unsupported ==> StartsWith(r, UnsupportedPrefix) && Contains(r, t)
  {
    match Dispatch(t)
    case IntVector => tp.intVector
    case StringVector => tp.stringVector
    case IntMatrix => tp.intMatrix
    case Tree => tp.tree
    case LinkedList => tp.linkedList
    case IntScalar => tp.intScalar
    case StringLine => tp.stringLine
    case CharScalar => tp.charScalar
    case FloatScalar => tp.floatScalar
    case BoolScalar => tp.boolScalar
    case Unsupported =>
      OccursInMiddle(UnsupportedPrefix, t, "\n");
      UnsupportedPrefix + t + "\n"
  }

  /** `generateParamPassingCode(t, name)`: the expression passed for one parameter. */
  function ArgumentExpr(t: string, name: string): (r: string)
    ensures r == name || r == "root" || r == "head"
    ensures r != name ==> !Contains(t, "vector<") && (Contains(t, "TreeNode*") || Contains(t, "ListNode*"))
  {
    if Contains(t, "vector<") then name
    else if Contains(t, "TreeNode*") then "root"
    else if Contains(t, "ListNode*") then "head"
    else name
  }

  // ---------------------------------------------------------------- properties of one parameter

  /** The structured types are recognised by containment, so `vector<vector<int>>`,
      which contains `vector<int>`, takes the flat-vector branch: the matrix branch is
      never taken. */
  lemma MatrixBranchUnreachable(t: string)
    ensures Dispatch(t) != IntMatrix
    ensures Contains(t, "vector<vector<int>>") ==> Dispatch(t) == IntVector
  {
    if Contains(t, "vector<vector<int>>") {
      var i :| 0 <= i <= |t| - 19 && OccursAt(t, "vector<vector<int>>", i);
      assert "vector<vector<int>>" == "vector<" + "vector<int>" + ">";
      OccursWithin(t, "vector<", "vector<int>", ">", i);
    }
  }

  /** None of the structured patterns fits in a type shorter than nine characters. */
  lemma ShortTypeIsNotStructured(t: string)
    requires |t| < 9
    ensures !Contains(t, "vector<int>") && !Contains(t, "vector<string>") && !Contains(t, "vector<vector<int>>")
    ensures !Contains(t, "TreeNode*") && !Contains(t, "ListNode*")
  {
  }

  /** Scalar types are recognised by exact equality only: a referenced scalar such as
      `int&`, and `long`, are unsupported; `double` and `float` share one branch. */
  lemma ScalarsMatchedExactly(t: string)
    ensures Dispatch(t) == IntScalar <==> t == "int"
    ensures Dispatch(t) == StringLine <==> t == "string"
    ensures Dispatch(t) == CharScalar <==> t == "char"
    ensures Dispatch(t) == FloatScalar <==> t == "double" || t == "float"
    ensures Dispatch(t) == BoolScalar <==> t == "bool"
    ensures Dispatch("int&") == Unsupported && Dispatch("long") == Unsupported
  {
    if |t| < 9 {
      ShortTypeIsNotStructured(t);
    }
    ShortTypeIsNotStructured("int&");
    ShortTypeIsNotStructured("long");
  }

  /** A type is unsupported exactly when its snippet is the placeholder comment naming
      it: the placeholder ends with a line break and no recognised snippet does. */
  lemma UnsupportedPlaceholder(tp: Templates, t: string)
    requires Shaped(tp)
    ensures Dispatch(t) == Unsupported <==> InputReadingCode(tp, t) == UnsupportedPrefix + t + "\n"
  {
    var r := InputReadingCode(tp, t);
    var p := UnsupportedPrefix + t + "\n";
    if Dispatch(t) != Unsupported {
      assert p[|p| - 1] == '\n';
      assert EndsInCode(r);
    }
  }

  /** Whenever the argument is not the parameter's own name, it is the variable the
      parameter's snippet declares and fills: `root` for a tree, `head` for a list. */
  lemma ArgumentIsDeclaredVariable(tp: Templates, t: string, name: string)
    requires Shaped(tp)
    ensures ArgumentExpr(t, name) != name ==>
              || (Dispatch(t) == Tree && ArgumentExpr(t, name) == "root"
                  && EndsWith(InputReadingCode(tp, t), "TreeNode* root = deserialize(line);"))
              || (Dispatch(t) == LinkedList && ArgumentExpr(t, name) == "head"
                  && EndsWith(InputReadingCode(tp, t), "ListNode* head = createLinkedList(arr);"))
  {
    if !Contains(t, "vector<") {
      NotVectorOf(t, "int>");
      NotVectorOf(t, "string>");
      NotVectorOf(t, "vector<int>>");
      assert "vector<int>" == "vector<" + "int>";
      assert "vector<string>" == "vector<" + "string>";
      assert "vector<vector<int>>" == "vector<" + "vector<int>>";
    }
  }

  lemma NotVectorOf(t: string, q: string)
    requires !Contains(t, "vector<")
    ensures !Contains(t, "vector<" + q)
  {
    if Contains(t, "vector<" + q) {
      var i :| 0 <= i <= |t| - |"vector<" + q| && OccursAt(t, "vector<" + q, i);
      ContainsPrefix(t, "vector<", q, i);
    }
  }

  /** A vector of trees is decoded by the tree snippet, which declares `root`, but is
      passed under its own name. */
  lemma VectorOfTreesPassesName(t: string, name: string)
    requires t == "vector<TreeNode*>"
    ensures Dispatch(t) == Tree && ArgumentExpr(t, name) == name
  {
    assert OccursAt(t, "vector<", 0);
    assert OccursAt(t, "TreeNode*", 7);
    forall i | 0 <= i <= |t| - 11 ensures !OccursAt(t, "vector<int>", i) {
      assert t[i..i + 11][0] == t[i] && t[i..i + 11][7] == t[i + 7];
      assert t[i] != 'v' || t[i + 7] != 'i';
    }
    forall i | 0 <= i <= |t| - 14 ensures !OccursAt(t, "vector<string>", i) {
      assert t[i..i + 14][0] == t[i] && t[i..i + 14][7] == t[i + 7];
      assert t[i] != 'v' || t[i + 7] != 's';
    }
  }

  // ---------------------------------------------------------------- helper selection

  /** The return type or one of the parameter types contains `p`. */
  predicate Mentions(returnType: string, ps: seq<Param>, p: string)
  {
    Contains(returnType, p) || exists k | 0 <= k < |ps| :: Contains(ps[k].ty, p)
  }

  /** `helperFunctions`: one vector helper for each of the two vector conditions that
      holds, then the bool helper when the return type mentions `bool`. */
  function HelperFunctions(tp: Templates, returnType: string, ps: seq<Param>): (r: string)
    ensures (!Mentions(returnType, ps, "vector<string>") && !Mentions(returnType, ps, "vector<int>")
             && !Contains(returnType, "bool")) ==> r == "\n\n\n\n"
  {
    "\n" + (if Mentions(returnType, ps, "vector<string>") then tp.vectorHelper else "")
    + "\n" + (if Mentions(returnType, ps, "vector<int>") then tp.vectorHelper else "")
    + "\n" + (if Contains(returnType, "bool") then tp.boolHelper else "")
    + "\n"
  }

  /** The vector helper is emitted exactly when some type mentions a vector of strings
      or of ints, and twice, one copy right after the other, when both do. */
  lemma VectorHelperSelection(tp: Templates, returnType: string, ps: seq<Param>)
    requires Shaped(tp)
    ensures var h := HelperFunctions(tp, returnType, ps);
            (Contains(h, tp.vectorHelper)
             <==> (Mentions(returnType, ps, "vector<string>") || Mentions(returnType, ps, "vector<int>")))
    ensures var h := HelperFunctions(tp, returnType, ps);
            Mentions(returnType, ps, "vector<string>") && Mentions(returnType, ps, "vector<int>") ==>
              OccursAt(h, tp.vectorHelper, 1) && OccursAt(h, tp.vectorHelper, |tp.vectorHelper| + 2)
  {
    var x := if Mentions(returnType, ps, "vector<string>") then tp.vectorHelper else "";
    var y := if Mentions(returnType, ps, "vector<int>") then tp.vectorHelper else "";
    var b := if Contains(returnType, "bool") then tp.boolHelper else "";
    assert HelperFunctions(tp, returnType, ps) == HelperText(x, y, b);
    if x != "" {
      HelperFirstSlot(x, y, b);
      if y != "" {
        HelperSecondSlot(x, y, b);
      }
    } else if y != "" {
      HelperSecondSlot(x, y, b);
    } else {
      assert |HelperText(x, y, b)| == 4 + |b| < |tp.vectorHelper|;
    }
  }

  /** The helper text with the three slots filled by `x`, `y` and `b`. */
  function HelperText(x: string, y: string, b: string): string
  {
    "\n" + x + "\n" + y + "\n" + b + "\n"
  }

  lemma HelperFirstSlot(x: string, y: string, b: string)
    ensures OccursAt(HelperText(x, y, b), x, 1)
  {
    OccursInMiddle("\n", x, "\n" + y + "\n" + b + "\n");
    assert HelperText(x, y, b) == "\n" + x + ("\n" + y + "\n" + b + "\n");
  }

  lemma HelperSecondSlot(x: string, y: string, b: string)
    ensures OccursAt(HelperText(x, y, b), y, |x| + 2)
  {
    OccursInMiddle("\n" + x + "\n", y, "\n" + b + "\n");
    assert HelperText(x, y, b) == ("\n" + x + "\n") + y + ("\n" + b + "\n");
  }

  /** The bool helper closes the helper text exactly when the return type mentions
      `bool`; the parameter types play no part. */
  lemma BoolHelperSelection(tp: Templates, returnType: string, ps: seq<Param>)
    requires Shaped(tp)
    ensures EndsWith(HelperFunctions(tp, returnType, ps), tp.boolHelper + "\n") <==> Contains(returnType, "bool")
  {
    var h := HelperFunctions(tp, returnType, ps);
    var x := if Mentions(returnType, ps, "vector<string>") then tp.vectorHelper else "";
    var y := if Mentions(returnType, ps, "vector<int>") then tp.vectorHelper else "";
    var e := tp.boolHelper + "\n";
    if Contains(returnType, "bool") {
      assert h == ("\n" + x + "\n" + y + "\n") + e;
    } else {
      assert h == ("\n" + x + "\n" + y) + "\n\n";
      assert h[|h| - 2] == '\n';
      assert e[|e| - 2] != '\n';
    }
  }

  // ---------------------------------------------------------------- main.cpp

  /** `inputReadingCode`: the snippets of the parameters, in declaration order. */
  function InputReadingText(tp: Templates, ps: seq<Param>): string
  {
    Join(seq(|ps|, k requires 0 <= k < |ps| => InputReadingCode(tp, ps[k].ty)), "\n        ")
  }

  /** The argument expressions, one per parameter and in declaration order. */
  function Arguments(ps: seq<Param>): (r: seq<string>)
    ensures |r| == |ps|
    ensures forall k | 0 <= k < |ps| :: r[k] == ArgumentExpr(ps[k].ty, ps[k].name)
  {
    seq(|ps|, k requires 0 <= k < |ps| => ArgumentExpr(ps[k].ty, ps[k].name))
  }

  /** The parameter names, in declaration order. */
  function Names(ps: seq<Param>): (r: seq<string>)
    ensures |r| == |ps| && forall k | 0 <= k < |ps| :: r[k] == ps[k].name
  {
    seq(|ps|, k requires 0 <= k < |ps| => ps[k].name)
  }

  /** A parameter passed under its own name: a vector type, or neither a tree nor a list. */
  predicate PassedByName(p: Param)
  {
    Contains(p.ty, "vector<") || (!Contains(p.ty, "TreeNode*") && !Contains(p.ty, "ListNode*"))
  }

  /** Parameters passed by name give the call their names, in declaration order. */
  lemma ArgumentsAreNames(ps: seq<Param>)
    requires forall k | 0 <= k < |ps| :: PassedByName(ps[k])
    ensures Arguments(ps) == Names(ps)
  {
    var a := Arguments(ps);
    var n := Names(ps);
    forall k | 0 <= k < |ps| ensures a[k] == n[k] {
    }
  }

  /** `kw name(T1 N1, ..., Tn Nn)` is a declaration with a literal return type, a word for
      a name and one or more plain parameters. */
  predicate PlainSignature(kw: string, name: string, ps: seq<Param>)
  {
    && kw in LiteralKeywords && name != [] && AllIn(name, Word)
    && |ps| >= 1 && (forall k | 0 <= k < |ps| :: PlainDecl(ps[k]))
    && ')' !in Join(DeclTexts(ps), ", ")
  }

  /** A declaration `kw name(T1 N1, ..., Tn Nn)` with plain parameters parses back into exactly its parts, in order. */
  lemma DeclarationListParse(kw: string, name: string, ps: seq<Param>)
    requires PlainSignature(kw, name, ps)
    ensures ParseSignature(kw + " " + name + "(" + Join(DeclTexts(ps), ", ") + ")") == Ok(ParsedSignature(kw, name, ps))
  {
    PlainBody(ps);
    CanonicalParseTo(kw, name, Join(DeclTexts(ps), ", "), ps);
  }

  /** The text of one or more plain declarations is not empty and splits back into them. */
  lemma PlainBody(ps: seq<Param>)
    requires |ps| >= 1 && forall k | 0 <= k < |ps| :: PlainDecl(ps[k])
    ensures Join(DeclTexts(ps), ", ") != "" && ParseParams(Join(DeclTexts(ps), ", ")) == ps
  {
    JoinNonEmpty(DeclTexts(ps), ", ");
    ParseParamsRoundTrip(ps);
  }

  /** `CanonicalParse` with the parameters the body is known to parse to. */
  lemma CanonicalParseTo(kw: string, name: string, body: string, ps: seq<Param>)
    requires kw in LiteralKeywords && name != [] && AllIn(name, Word)
    requires body != "" && ')' !in body && ParseParams(body) == ps
    ensures ParseSignature(kw + " " + name + "(" + body + ")") == Ok(ParsedSignature(kw, name, ps))
  {
    CanonicalParse(kw, name, body);
  }

  /** Declarations `T1 N1, ..., Tn Nn` passed by name are called as `f(N1, ..., Nn)`: the
      harness keeps the order of the declaration from the source text to the call. */
  lemma CallKeepsDeclarationOrder(tp: Templates, kw: string, name: string, ps: seq<Param>, testDir: string)
    requires PlainSignature(kw, name, ps) && forall k | 0 <= k < |ps| :: PassedByName(ps[k])
    ensures var code := kw + " " + name + "(" + Join(DeclTexts(ps), ", ") + ")";
            && GenerateMainFile(tp, code, testDir).Ok?
            && Contains(GenerateMainFile(tp, code, testDir).value, name + "(" + Join(Names(ps), ", ") + ")")
  {
    var code := kw + " " + name + "(" + Join(DeclTexts(ps), ", ") + ")";
    DeclarationListParse(kw, name, ps);
    GeneratedCall(tp, code, testDir, ParsedSignature(kw, name, ps));
    ArgumentsAreNames(ps);
  }

  /** The call `name(arg1, arg2, ...)` the generated `main` makes. */
  function CallText(sig: ParsedSignature): string
  {
    sig.functionName + "(" + Join(Arguments(sig.params), ", ") + ")"
  }

  /** The `main.cpp` text for user source `userCode` with parsed signature `sig`. */
  function MainText(tp: Templates, userCode: string, testDir: string, sig: ParsedSignature): (r: string)
    ensures StartsWith(r, tp.prelude + userCode)
  {
    tp.prelude + userCode + tp.afterUserCode
    + HelperFunctions(tp, sig.returnType, sig.params) + tp.afterHelpers
    + (testDir + "/\"") + tp.afterTestDir
    + InputReadingText(tp, sig.params) + tp.afterInputReading
    + CallText(sig) + tp.epilogue
  }

  /** `generateMainFile` without its file reading and writing: the text of `main.cpp`,
      or the error it throws. */
  function GenerateMainFile(tp: Templates, userCode: string, testDir: string): (r: Result<string>)
    ensures r.Err? ==> r.message == SignatureNotFound
    ensures r.Ok? ==> StartsWith(r.value, tp.prelude + userCode)
  {
    match ParseSignature(userCode)
    case Err(e) => Err(e)
    case Ok(sig) => Ok(MainText(tp, userCode, testDir, sig))
  }

  /** Generation fails, with the signature message, exactly when no text of the source
      matches the pattern; the parameter types never make it fail. */
  lemma GenerateMainFileFails(tp: Templates, userCode: string, testDir: string)
    ensures GenerateMainFile(tp, userCode, testDir).Err? <==> forall m :: !ShapeAt(userCode, m)
    ensures GenerateMainFile(tp, userCode, testDir).Err? ==> GenerateMainFile(tp, userCode, testDir).message == SignatureNotFound
  {
    ParseSignatureFails(userCode);
  }

  /** Once the source parses to `sig`, the generated file exists and holds the call for `sig`. */
  lemma GeneratedCall(tp: Templates, userCode: string, testDir: string, sig: ParsedSignature)
    requires ParseSignature(userCode) == Ok(sig)
    ensures GenerateMainFile(tp, userCode, testDir).Ok?
    ensures Contains(GenerateMainFile(tp, userCode, testDir).value, CallText(sig))
  {
    MainFileContents(tp, userCode, testDir);
  }

  /** The generated text starts with the includes and the user source verbatim,
      names the test directory followed by `/` and the closing quote, and calls the
      function on the argument expressions in declaration order. */
  lemma MainFileContents(tp: Templates, userCode: string, testDir: string)
    requires GenerateMainFile(tp, userCode, testDir).Ok?
    ensures var text := GenerateMainFile(tp, userCode, testDir).value;
            var sig := ParseSignature(userCode).value;
            && StartsWith(text, tp.prelude + userCode)
            && Contains(text, testDir + "/\"")
            && Contains(text, CallText(sig))
  {
    var sig := ParseSignature(userCode).value;
    var dir := testDir + "/\"";
    var call := CallText(sig);
    var t1 := tp.prelude + userCode;
    var t2 := t1 + tp.afterUserCode;
    var t3 := t2 + HelperFunctions(tp, sig.returnType, sig.params);
    var t4 := t3 + tp.afterHelpers;
    var t5 := t4 + dir;
    var t6 := t5 + tp.afterTestDir;
    var t7 := t6 + InputReadingText(tp, sig.params);
    var t8 := t7 + tp.afterInputReading;
    var t9 := t8 + call;
    var text := t9 + tp.epilogue;
    assert text == MainText(tp, userCode, testDir, sig);
    // the prelude and the user code come first
    OccursLast([], t1);
    assert [] + t1 == t1;
    OccursExtend(t1, t1, 0, tp.afterUserCode);
    OccursExtend(t2, t1, 0, HelperFunctions(tp, sig.returnType, sig.params));
    OccursExtend(t3, t1, 0, tp.afterHelpers);
    OccursExtend(t4, t1, 0, dir);
    OccursExtend(t5, t1, 0, tp.afterTestDir);
    OccursExtend(t6, t1, 0, InputReadingText(tp, sig.params));
    OccursExtend(t7, t1, 0, tp.afterInputReading);
    OccursExtend(t8, t1, 0, call);
    OccursExtend(t9, t1, 0, tp.epilogue);
    // then the directory
    OccursLast(t4, dir);
    OccursExtend(t5, dir, |t4|, tp.afterTestDir);
    OccursExtend(t6, dir, |t4|, InputReadingText(tp, sig.params));
    OccursExtend(t7, dir, |t4|, tp.afterInputReading);
    OccursExtend(t8, dir, |t4|, call);
    OccursExtend(t9, dir, |t4|, tp.epilogue);
    // then the call
    OccursLast(t8, call);
    OccursExtend(t9, call, |t8|, tp.epilogue);
  }

  /** `runTestCases`: a missing solution file is reported with its path; otherwise the
      harness is generated for the fixed directory `testCases`. */
  function RunTestCases(tp: Templates, solutionPath: string, source: Option<string>): (r: Result<string>)
    ensures r.Err? ==> r.message == "Solution file not found: " + solutionPath || r.message == SignatureNotFound
  {
    match source
    case None => Err("Solution file not found: " + solutionPath)
    case Some(userCode) => GenerateMainFile(tp, userCode, "testCases")
  }

  lemma RunTestCasesOutcome(tp: Templates, solutionPath: string, source: Option<string>)
    ensures source.None? ==> RunTestCases(tp, solutionPath, source) == Err("Solution file not found: " + solutionPath)
    ensures source.Some? ==>
              (RunTestCases(tp, solutionPath, source).Err? <==> forall m :: !ShapeAt(source.value, m))
    ensures RunTestCases(tp, solutionPath, source).Ok? ==> Contains(RunTestCases(tp, solutionPath, source).value, "testCases/\"")
  {
    if source.Some? {
      GenerateMainFileFails(tp, source.value, "testCases");
      if RunTestCases(tp, solutionPath, source).Ok? {
        MainFileContents(tp, source.value, "testCases");
        assert "testCases" + "/\"" == "testCases/\"";
      }
    }
  }

  /** The worked example: `int twoSum(vector<int> nums, int target)` is called as
      `twoSum(nums, target)`. */
  lemma TwoSumCall(tp: Templates, s: string, body: string, testDir: string)
    requires body == "vector<int> nums, int target" && s == "int twoSum(" + body + ")"
    ensures GenerateMainFile(tp, s, testDir).Ok?
    ensures Contains(GenerateMainFile(tp, s, testDir).value, "twoSum(nums, target)")
  {
    TwoSumExample(s, body);
    MainFileContents(tp, s, testDir);
    var ps := [Param("vector<int>", "nums"), Param("int", "target")];
    assert OccursAt(ps[0].ty, "vector<", 0);
    ShortTypeIsNotStructured(ps[1].ty);
    var args := Arguments(ps);
    assert args[0] == "nums" && args[1] == "target";
    assert |args| == 2 && |args[1..]| == 1 && args[1..][0] == args[1];
    assert Join(args, ", ") == args[0] + ", " + args[1];
    TwoSumCallText();
  }

  lemma TwoSumCallText()
    ensures "twoSum" + "(" + ("nums" + ", " + "target") + ")" == "twoSum(nums, target)"
  {
  }
}
